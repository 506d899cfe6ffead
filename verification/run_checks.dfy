/**
 Action selection of the project's check-runner script: given the ordered
 mapping from action name to "was this flag given", run the selected actions,
 or every action when none was selected.

 The mapping is a sequence of (name, flag) pairs in mapping order; a Python
 mapping never repeats a key, which `DistinctKeys` states.
 */
module RunChecks {

  type Flags = seq<(string, bool)>

  /** No name occurs twice, as in any Python mapping. */
  predicate DistinctKeys(args: Flags) {
    forall i, j :: 0 <= i < j < |args| ==> args[i].0 != args[j].0
  }

  /** `name` is a key of the mapping. */
  predicate IsKey(args: Flags, name: string) {
    exists i :: 0 <= i < |args| && args[i].0 == name
  }

  /** `name` is a key whose flag is set. */
  predicate IsSelected(args: Flags, name: string) {
    exists i :: 0 <= i < |args| && args[i].0 == name && args[i].1
  }

  /** Some flag is set. */
  predicate AnySelected(args: Flags) {
    exists i :: 0 <= i < |args| && args[i].1
  }

  /** The position of the first occurrence of key `name`. */
  function Position(args: Flags, name: string): (p: nat)
    requires IsKey(args, name)
    ensures p < |args| && args[p].0 == name
    ensures forall i :: 0 <= i < p ==> args[i].0 != name
  {
    if args[0].0 == name then 0
    else
      assert IsKey(args[1..], name) by {
        var i :| 0 <= i < |args| && args[i].0 == name;
        assert args[1..][i - 1].0 == name;
      }
      1 + Position(args[1..], name)
  }

  /**
   `names` lists keys of the mapping in mapping order: each entry is a key, and
   keys later in the mapping come later in `names` (so nothing is repeated).
   */
  ghost predicate InMappingOrder(args: Flags, names: seq<string>) {
    && (forall j :: 0 <= j < |names| ==> IsKey(args, names[j]))
    && (forall j1, j2 :: 0 <= j1 < j2 < |names| ==> Position(args, names[j1]) < Position(args, names[j2]))
  }

  /** What the script runs: the selected actions if any flag is set, otherwise every action. */
  ghost predicate IsActionList(args: Flags, names: seq<string>) {
    && InMappingOrder(args, names)
    && (AnySelected(args) ==> forall x :: x in names <==> IsSelected(args, x))
    && (!AnySelected(args) ==> forall x :: x in names <==> IsKey(args, x))
  }

  /** `[action for action in args.keys()]`: every key, in mapping order. */
  function AllActions(args: Flags): (r: seq<string>)
    ensures |r| == |args|
    ensures forall x :: x in r <==> IsKey(args, x)
    ensures DistinctKeys(args) ==> InMappingOrder(args, r)
  {
    var r := seq(|args|, i requires 0 <= i < |args| => args[i].0);
    assert forall x :: IsKey(args, x) ==> x in r by {
      forall x | IsKey(args, x) ensures x in r {
        var i :| 0 <= i < |args| && args[i].0 == x;
        assert r[i] == x;
      }
    }
    assert forall j :: 0 <= j < |r| ==> IsKey(args, r[j]) && (DistinctKeys(args) ==> Position(args, r[j]) == j);
    r
  }

  /** `[action for action, selected in args.items() if selected]`: the selected keys, in mapping order. */
  function SelectedActions(args: Flags): (r: seq<string>)
    ensures forall x :: x in r <==> IsSelected(args, x)
    ensures forall j :: 0 <= j < |r| ==> IsKey(args, r[j])
    ensures DistinctKeys(args) ==> InMappingOrder(args, r)
    ensures |r| == 0 <==> !AnySelected(args)
  {
    if args == [] then []
    else
      var rest := SelectedActions(args[1..]);
      var head := if args[0].1 then [args[0].0] else [];
      var r := head + rest;
      ShiftKeys(args);
      if DistinctKeys(args) then
        assert DistinctKeys(args[1..]) by {
          forall i, j | 0 <= i < j < |args[1..]| ensures args[1..][i].0 != args[1..][j].0 {
            assert args[1..][i] == args[i + 1] && args[1..][j] == args[j + 1];
          }
        }
        ConsHeadKey(args, rest);
        r
      else r
  }

  /** Key facts of a mapping carry over from its tail, with positions shifted by one. */
  lemma ShiftKeys(args: Flags)
    requires args != []
    ensures forall x :: IsKey(args[1..], x) ==> IsKey(args, x)
    ensures forall x :: IsSelected(args, x) <==> (args[0].1 && x == args[0].0) || IsSelected(args[1..], x)
    ensures AnySelected(args) <==> args[0].1 || AnySelected(args[1..])
  {
    forall x | IsKey(args[1..], x) ensures IsKey(args, x) {
      var i :| 0 <= i < |args[1..]| && args[1..][i].0 == x;
      assert args[i + 1].0 == x;
    }
    forall x | IsSelected(args, x) && !(args[0].1 && x == args[0].0) ensures IsSelected(args[1..], x) {
      var i :| 0 <= i < |args| && args[i].0 == x && args[i].1;
      assert args[1..][i - 1] == args[i];
    }
    forall x | IsSelected(args[1..], x) ensures IsSelected(args, x) {
      var i :| 0 <= i < |args[1..]| && args[1..][i].0 == x && args[1..][i].1;
      assert args[i + 1] == args[1..][i];
    }
    if AnySelected(args) && !args[0].1 {
      var i :| 0 <= i < |args| && args[i].1;
      assert args[1..][i - 1] == args[i];
    }
    if AnySelected(args[1..]) {
      var i :| 0 <= i < |args[1..]| && args[1..][i].1;
      assert args[i + 1] == args[1..][i];
    }
  }

  /** Keys of the tail of a distinct-key mapping keep their order, one position later, after the head key. */
  lemma ShiftPositions(args: Flags, names: seq<string>)
    requires args != [] && DistinctKeys(args)
    requires InMappingOrder(args[1..], names)
    ensures InMappingOrder(args, names)
    ensures forall j :: 0 <= j < |names| ==> names[j] != args[0].0 && Position(args, names[j]) > 0
  {
    ShiftKeys(args);
    forall j | 0 <= j < |names|
      ensures names[j] != args[0].0 && Position(args, names[j]) == 1 + Position(args[1..], names[j])
    {
      var p := Position(args[1..], names[j]);
      assert args[p + 1].0 == names[j];
    }
  }

  /** Putting the head key in front of such a list keeps it in mapping order. */
  lemma ConsHeadKey(args: Flags, names: seq<string>)
    requires args != [] && DistinctKeys(args)
    requires InMappingOrder(args[1..], names)
    ensures InMappingOrder(args, names)
    ensures InMappingOrder(args, [args[0].0] + names)
  {
    ShiftPositions(args, names);
    var full := [args[0].0] + names;
    assert IsKey(args, args[0].0);
    assert forall j :: 0 < j < |full| ==> full[j] == names[j - 1];
  }

  /**
   `_extract_actions(args)`: `selected or all` — the selected keys when the
   list of them is non-empty, otherwise every key.
   */
  function ExtractActions(args: Flags): (r: seq<string>)
    ensures AnySelected(args) ==> forall x :: x in r <==> IsSelected(args, x)
    ensures !AnySelected(args) ==> forall x :: x in r <==> IsKey(args, x)
    ensures forall j :: 0 <= j < |r| ==> IsKey(args, r[j])
    ensures DistinctKeys(args) ==> InMappingOrder(args, r)
    ensures |r| == 0 <==> |args| == 0
  {
    var selected := SelectedActions(args);
    if |selected| > 0 then selected else AllActions(args)
  }

  /**
   Over a distinct-key mapping, a list in mapping order is determined by its
   elements: two such lists with the same members are equal.
   */
  lemma {:induction false} MappingOrderUnique(args: Flags, a: seq<string>, b: seq<string>)
    requires InMappingOrder(args, a) && InMappingOrder(args, b)
    requires forall x :: x in a <==> x in b
    ensures a == b
    decreases |a|
  {
    if a != [] {
      assert b != [] by { assert a[0] in b; }
      FirstIsEarliest(args, a, b[0]);
      FirstIsEarliest(args, b, a[0]);
      assert a[0] == args[Position(args, a[0])].0 == b[0];
      TailsInMappingOrder(args, a, b);
      MappingOrderUnique(args, a[1..], b[1..]);
      assert a == [a[0]] + a[1..] && b == [b[0]] + b[1..];
    } else {
      HeadIsMember(b);
    }
  }

  /**
   Two lists in mapping order with the same members and the same first name
   have tails in mapping order with the same members.
   */
  lemma TailsInMappingOrder(args: Flags, a: seq<string>, b: seq<string>)
    requires InMappingOrder(args, a) && InMappingOrder(args, b)
    requires forall x :: x in a <==> x in b
    requires a != [] && b != [] && a[0] == b[0]
    ensures InMappingOrder(args, a[1..]) && InMappingOrder(args, b[1..])
    ensures forall x :: x in a[1..] <==> x in b[1..]
  {
    forall x ensures x in a[1..] <==> x in b[1..] {
      if x in a[1..] {
        var j :| 1 <= j < |a| && a[j] == x;
        assert x != a[0];
        assert x in b;
      }
      if x in b[1..] {
        var j :| 1 <= j < |b| && b[j] == x;
        assert x != b[0];
        assert x in a;
      }
    }
  }

  /**
   Stated as an implication so that the empty-list branch of `MappingOrderUnique`
   can rule out a non-empty partner without indexing it on a path where it is empty.
   */
  lemma HeadIsMember(s: seq<string>)
    ensures |s| > 0 ==> s[0] in s
  {
  }

  /** The first name of a list in mapping order is the earliest key in it. */
  lemma FirstIsEarliest(args: Flags, names: seq<string>, x: string)
    requires InMappingOrder(args, names)
    requires x in names
    ensures Position(args, names[0]) <= Position(args, x)
  {
    var j :| 0 <= j < |names| && names[j] == x;
  }

  /**
   The contract pins the result down: over a distinct-key mapping, a list is
   an action list exactly when it is what `ExtractActions` returns.
   */
  lemma ExtractActionsCharacterized(args: Flags, names: seq<string>)
    requires DistinctKeys(args)
    ensures IsActionList(args, ExtractActions(args))
    ensures IsActionList(args, names) <==> names == ExtractActions(args)
  {
    ExtractActionsIsActionList(args);
    if IsActionList(args, names) {
      MappingOrderUnique(args, names, ExtractActions(args));
    }
  }

  /** The result of `ExtractActions` is an action list. */
  lemma ExtractActionsIsActionList(args: Flags)
    requires DistinctKeys(args)
    ensures IsActionList(args, ExtractActions(args))
  {
    var r := ExtractActions(args);
    assert InMappingOrder(args, r);
  }

  /**
   The result is empty only for an empty mapping, is never longer than the
   mapping, and names no action twice.
   */
  lemma ExtractActionsShape(args: Flags)
    requires DistinctKeys(args)
    ensures 0 < |ExtractActions(args)| <= |args| || args == []
    ensures forall j1, j2 :: 0 <= j1 < j2 < |ExtractActions(args)| ==> ExtractActions(args)[j1] != ExtractActions(args)[j2]
  {
    var r := ExtractActions(args);
    if r == AllActions(args) {
    } else {
      MappingOrderLength(args, r);
    }
  }

  /** A list of keys in mapping order is no longer than the mapping. */
  lemma {:induction false} MappingOrderLength(args: Flags, names: seq<string>)
    requires InMappingOrder(args, names)
    ensures |names| <= |args|
  {
    if |names| > |args| {
      PositionsGrow(args, names, |names| - 1);
    }
  }

  /** The j-th name of a list in mapping order sits at position j or later. */
  lemma {:induction false} PositionsGrow(args: Flags, names: seq<string>, j: nat)
    requires InMappingOrder(args, names)
    requires j < |names|
    ensures j <= Position(args, names[j])
  {
    if j > 0 {
      PositionsGrow(args, names, j - 1);
    }
  }
}
