/**
 The `User` model of the GitHub API client: a record whose attribute names are
 restricted to a fixed set of 32 slots.

 An instance is modelled as the map of the slots that currently hold a value.
 A freshly allocated object (before `__init__` runs) has no slot set; a constructed one has
 every allowed slot set, to the supplied value or to `None`. Field values are
 of an opaque type `V`; Python's `None` is `Option.None`.
 */
module Users {
  import opened Wrappers

  /** The names handed to the frozenset that is `User.__slots__`, in declaration order. */
  const SlotNames: seq<string> :=
    ["login", "id", "node_id", "avatar_url", "gravatar_id", "url", "html_url",
     "followers_url", "following_url", "gists_url", "starred_url",
     "subscriptions_url", "organizations_url", "repos_url", "events_url",
     "received_events_url", "type", "site_admin", "name", "company", "blog",
     "location", "email", "hireable", "bio", "twitter_username",
     "public_repos", "public_gists", "followers", "following", "created_at",
     "updated_at"]

  /** The allowed attribute names. */
  const Allowed: set<string> := set n | n in SlotNames

  /** `AttributeError`, carrying the offending attribute names (their order is not significant). */
  datatype AttributeError = AttributeError(names: set<string>)

  /** A `User` instance: each set slot mapped to its value. */
  datatype User<V> = User(slots: map<string, Option<V>>)

  /** Only allowed names can ever hold a value. */
  predicate Valid<V>(u: User<V>) {
    u.slots.Keys <= Allowed
  }

  /** Every allowed slot holds a value, as after a successful `__init__`. */
  predicate Populated<V>(u: User<V>) {
    u.slots.Keys == Allowed
  }

  /** The object `__new__` hands to `__init__`: no slot is set yet. */
  function Blank<V>(): (u: User<V>)
    ensures Valid(u) && u.slots.Keys == {}
  {
    User(map[])
  }

  /** The mapping `__init__` works on: a missing or `None` argument is the empty mapping. */
  function Supplied<V>(initial: Option<map<string, Option<V>>>): (d: map<string, Option<V>>)
    ensures initial.None? ==> d.Keys == {}
    ensures initial.Some? ==> d == initial.value
  {
    initial.GetOr(map[])
  }

  /** `mapping.get(name, None)`. */
  function Lookup<V>(d: map<string, Option<V>>, name: string): (v: Option<V>)
    ensures name in d ==> v == d[name]
    ensures name !in d ==> v == None
  {
    if name in d then d[name] else None
  }

  /**
   `setattr(u, name, value)`: succeeds exactly for an allowed name, and then
   changes that one slot and nothing else.
   */
  function SetAttr<V>(u: User<V>, name: string, value: Option<V>): (r: Result<User<V>, AttributeError>)
    ensures r.Success? <==> name in Allowed
    ensures r.Failure? ==> r.error == AttributeError({name})
    ensures r.Success? ==> r.value.slots.Keys == u.slots.Keys + {name}
    ensures r.Success? ==> r.value.slots[name] == value
    ensures r.Success? ==> forall k :: k in u.slots && k != name ==> r.value.slots[k] == u.slots[k]
    ensures r.Success? && Valid(u) ==> Valid(r.value)
    ensures r.Success? && Populated(u) ==> Populated(r.value)
  {
    if name in Allowed then Success(User(u.slots[name := value]))
    else Failure(AttributeError({name}))
  }

  /**
   `getattr(u, name)`: succeeds exactly for an allowed name whose slot holds a
   value; an unknown name and an unset slot both raise `AttributeError`.
   */
  function GetAttr<V>(u: User<V>, name: string): (r: Result<Option<V>, AttributeError>)
    ensures r.Success? <==> name in Allowed && name in u.slots
    ensures r.Success? ==> r.value == u.slots[name]
    ensures r.Failure? ==> r.error == AttributeError({name})
  {
    if name in Allowed && name in u.slots then Success(u.slots[name])
    else Failure(AttributeError({name}))
  }

  /**
   The `__init__` loop: one `setattr(self, name, d.get(name, None))` per name,
   in order. Every listed slot ends up holding its looked-up value, whatever
   the order, and no other slot is touched.
   */
  function Populate<V>(u: User<V>, names: seq<string>, d: map<string, Option<V>>): (r: User<V>)
    requires Valid(u)
    requires forall i :: 0 <= i < |names| ==> names[i] in Allowed
    ensures Valid(r)
    ensures r.slots.Keys == u.slots.Keys + (set n | n in names)
    ensures forall n :: n in names ==> r.slots[n] == Lookup(d, n)
    ensures forall k :: k in u.slots && k !in names ==> r.slots[k] == u.slots[k]
    decreases |names|
  {
    if names == [] then u
    else
      var step := SetAttr(u, names[0], Lookup(d, names[0]));
      Populate(step.value, names[1..], d)
  }

  /**
   `User.__init__(self, initial)`, returning the object's state afterwards and
   the error raised, if any. The key set is checked before any slot is
   written, so a raising call leaves `self` exactly as it was.
   */
  function Init<V>(self: User<V>, initial: Option<map<string, Option<V>>>): (r: (User<V>, Option<AttributeError>))
    requires Valid(self)
    ensures r.1.Some? <==> !(Supplied(initial).Keys <= Allowed)
    ensures r.1.Some? ==> r.0 == self && r.1.value.names == Supplied(initial).Keys - Allowed
    ensures r.1.None? ==> Populated(r.0)
    ensures r.1.None? ==> forall a :: a in Allowed ==> r.0.slots[a] == Lookup(Supplied(initial), a)
  {
    var d := Supplied(initial);
    var keys := d.Keys;
    if !(keys <= Allowed) then (self, Some(AttributeError(keys - Allowed)))
    else SlotNamesAreAllowed(); PopulateCovers(self, SlotNames, d, Allowed); (Populate(self, SlotNames, d), None)
  }

  /**
   The loop over names that cover exactly `names` sets every slot of that set
   from the mapping. Stated over an abstract set so that the proof never sees
   the 32 literal names.
   */
  lemma PopulateCovers<V>(self: User<V>, names: seq<string>, d: map<string, Option<V>>, covered: set<string>)
    requires Valid(self)
    requires forall i :: 0 <= i < |names| ==> names[i] in Allowed
    requires (set n | n in names) == covered
    requires self.slots.Keys <= covered
    ensures Populate(self, names, d).slots.Keys == covered
    ensures forall a :: a in covered ==> Populate(self, names, d).slots[a] == Lookup(d, a)
  {
    var r := Populate(self, names, d);
    assert r.slots.Keys == self.slots.Keys + covered;
    assert forall a :: a in covered ==> a in names;
  }

  /**
   `User(initial)`: construction succeeds exactly when every supplied key is an
   allowed name. On success every allowed slot holds the supplied value or
   `None`; on failure the error names exactly the unknown keys, all of them.
   */
  function New<V>(initial: Option<map<string, Option<V>>>): (r: Result<User<V>, AttributeError>)
    ensures r.Success? <==> Supplied(initial).Keys <= Allowed
    ensures r.Failure? ==> r.error.names == Supplied(initial).Keys - Allowed && r.error.names != {}
    ensures r.Success? ==> Populated(r.value)
    ensures r.Success? ==> forall k :: k in Supplied(initial) ==> r.value.slots[k] == Supplied(initial)[k]
    ensures r.Success? ==> forall a :: a in Allowed && a !in Supplied(initial) ==> r.value.slots[a] == None
    ensures r.Success? ==> forall a :: a in Allowed ==> r.value.slots[a] == Lookup(Supplied(initial), a)
  {
    var (obj, raised) := Init(Blank(), initial);
    if raised.Some? then Failure(raised.value) else Success(obj)
  }

  /** Every declared slot name is an allowed name. */
  lemma SlotNamesAreAllowed()
    ensures forall i :: 0 <= i < |SlotNames| ==> SlotNames[i] in Allowed
    ensures forall n :: n in Allowed <==> n in SlotNames
    ensures (set n | n in SlotNames) == Allowed
  {
  }

  /** No slot name is declared twice, so the allowed set has exactly 32 names. */
  lemma AllowedHas32Names()
    ensures |Allowed| == 32
  {
    assert |SlotNames| == 32;
    DistinctCardinality(SlotNames);
  }

  /** A sequence without repeats has as many distinct elements as it has positions. */
  lemma {:induction false} DistinctCardinality(s: seq<string>)
    requires forall i, j :: 0 <= i < j < |s| ==> s[i] != s[j]
    ensures |set n | n in s| == |s|
  {
    if s != [] {
      DistinctCardinality(s[1..]);
      assert (set n | n in s) == (set n | n in s[1..]) + {s[0]};
      assert s[0] !in (set n | n in s[1..]);
    }
  }

  /** Plan information is deliberately not a `User` attribute: supplying `plan` fails. */
  lemma PlanIsRejected<V>(v: Option<V>)
    ensures "plan" !in Allowed
    ensures New(Some(map["plan" := v])) == Failure(AttributeError({"plan"}))
  {
    var d := map["plan" := v];
    assert Supplied(Some(d)).Keys == {"plan"};
    assert "plan" !in Allowed;
    assert {"plan"} - Allowed == {"plan"};
  }

  /** Constructing without a mapping, or with an empty one, sets every attribute to `None`. */
  lemma EmptyConstruction<V>()
    ensures New<V>(None).Success? && New<V>(Some(map[])).Success?
    ensures New<V>(None) == New<V>(Some(map[]))
    ensures forall a :: a in Allowed ==> New<V>(None).value.slots[a] == None
  {
    var none := New<V>(None);
    var empty := New<V>(Some(map[]));
    assert Supplied<V>(None).Keys == {} && Supplied<V>(Some(map[])).Keys == {};
    assert none.Success? && empty.Success?;
    SameSlots(none.value, empty.value, map[]);
  }

  /** Every allowed attribute of a constructed record can be read; an unknown name cannot. */
  lemma ConstructedReads<V>(initial: Option<map<string, Option<V>>>, name: string)
    requires Supplied(initial).Keys <= Allowed
    ensures GetAttr(New(initial).value, name).Success? <==> name in Allowed
    ensures name in Allowed ==> GetAttr(New(initial).value, name) == Success(Lookup(Supplied(initial), name))
  {
  }

  /** Reading back an attribute just updated gives the updated value; every other read is unchanged. */
  lemma ReadAfterWrite<V>(u: User<V>, name: string, value: Option<V>, other: string)
    requires name in Allowed
    requires other != name
    ensures SetAttr(u, name, value).Success?
    ensures GetAttr(SetAttr(u, name, value).value, name) == Success(value)
    ensures GetAttr(SetAttr(u, name, value).value, other) == GetAttr(u, other)
  {
  }

  /** Assigning the same attribute twice keeps only the second value. */
  lemma SetAttrOverwrites<V>(u: User<V>, name: string, v1: Option<V>, v2: Option<V>)
    requires name in Allowed
    ensures SetAttr(SetAttr(u, name, v1).value, name, v2) == SetAttr(u, name, v2)
  {
    var once := SetAttr(u, name, v2).value;
    var twice := SetAttr(SetAttr(u, name, v1).value, name, v2).value;
    assert twice.slots == once.slots;
  }

  /**
   Assigning an allowed attribute after construction gives the same record as
   supplying that value at construction.
   */
  lemma NewThenSetAttr<V>(d: map<string, Option<V>>, name: string, value: Option<V>)
    requires d.Keys <= Allowed
    requires name in Allowed
    ensures New(Some(d)).Success?
    ensures SetAttr(New(Some(d)).value, name, value) == New(Some(d[name := value]))
  {
    var d' := d[name := value];
    KeysStayAllowed(d, name, value);
    var before := New(Some(d));
    var after := New(Some(d'));
    assert before.Success? && after.Success?;
    var updated := SetAttr(before.value, name, value).value;
    SetAttrTracksMapping(before.value, d, name, value);
    SameSlots(updated, after.value, d');
  }

  /** Adding an allowed key to a mapping of allowed keys keeps its keys allowed. */
  lemma KeysStayAllowed<V>(d: map<string, Option<V>>, name: string, value: Option<V>)
    requires d.Keys <= Allowed && name in Allowed
    ensures d[name := value].Keys <= Allowed
  {
    assert d[name := value].Keys == d.Keys + {name};
  }

  /** Assigning into a record that mirrors a mapping mirrors the mapping updated the same way. */
  lemma SetAttrTracksMapping<V>(u: User<V>, d: map<string, Option<V>>, name: string, value: Option<V>)
    requires Populated(u)
    requires forall k :: k in Allowed ==> u.slots[k] == Lookup(d, k)
    requires name in Allowed
    ensures Populated(SetAttr(u, name, value).value)
    ensures forall k :: k in Allowed ==> SetAttr(u, name, value).value.slots[k] == Lookup(d[name := value], k)
  {
  }

  /** Every fully populated record is what the constructor builds from its own slots. */
  lemma NewRoundTrip<V>(u: User<V>)
    requires Populated(u)
    ensures New(Some(u.slots)) == Success(u)
  {
    var built := New(Some(u.slots)).value;
    SameSlots(built, u, u.slots);
  }

  /** Two populated records that agree with the same mapping on every allowed slot are equal. */
  lemma SameSlots<V>(a: User<V>, b: User<V>, d: map<string, Option<V>>)
    requires Populated(a) && Populated(b)
    requires forall k :: k in Allowed ==> a.slots[k] == Lookup(d, k)
    requires forall k :: k in Allowed ==> b.slots[k] == Lookup(d, k)
    ensures a == b
  {
    assert a.slots.Keys == b.slots.Keys;
    assert a.slots == b.slots;
  }
}
