# GitHub API client: restricted `User` record and check-runner action selection

This project models, in Dafny, the two pieces of logic in the Python GitHub API
client that have invariants worth proving.

- **The `User` record** (`github_api_client/users.py`). A `User` may hold only
  the 32 attribute names listed in `__slots__`. Plan information is
  deliberately not one of them. The constructor takes an optional mapping. It
  first checks that every key is an allowed name. If some key is not, it raises
  `AttributeError` naming all the unknown keys. Otherwise it sets every allowed
  attribute to the supplied value, or to `None` when none was supplied. Later
  assignments to an allowed name change that one attribute. An assignment to any
  other name raises `AttributeError`.
- **Action selection** (`_extract_actions` in `run_checks.py`). It takes the
  ordered mapping from action name to "flag given". It returns the selected
  actions in mapping order, or every action when none is selected.

Modules:

- `Wrappers` (`wrappers.dfy`): `Option` (Python `None` / a value) and `Result` (a value or a raised error).
- `Users` (`users.dfy`): the allowed slot names, the `User` instance, `setattr`/`getattr`, the `__init__` loop, `__init__` itself and the `User(...)` constructor.
- `RunChecks` (`run_checks.dfy`): the flag mapping as a sequence of `(name, flag)` pairs, the two list comprehensions, and `_extract_actions`.

Modelling choices:

- A `User` is the map from each slot that currently holds a value to that value. The object that `__new__` hands to `__init__` has no slot set (`Blank`). After a successful `__init__`, every allowed slot is set (`Populated`).
- Attribute values have an opaque type `V`. Python's `None` is `Option.None`. So a key supplied with value `None` gives the same record as a key left out, just as `initial.get(attr, None)` does.
- `__init__` is modelled as `Init(self, initial)`. It returns the object's state after the call together with the error raised, if any. This lets the contract say that a raising call writes no slot.
- `AttributeError(*names)` carries the unknown names as separate arguments in an unspecified order. The model carries them as a `set<string>`.
- The `__init__` loop iterates over a frozenset, whose order is unspecified. The model iterates in declaration order, and `Populate`'s contract holds for any order.

## Model

| member | source | states |
|---|---|---|
| `Users.AllowedHas32Names` | github_api_client/users.py:8-14 | the slot declaration repeats no name, so exactly 32 attribute names are allowed |
| `Users.PlanIsRejected` | github_api_client/users.py:5-27 | `plan` is not an allowed name, so constructing with a `plan` key raises `AttributeError` naming exactly `plan` |
| `Users.SetAttr` | github_api_client/users.py:8-14 | assignment succeeds exactly for an allowed name and then changes that slot only, so the record stays within the allowed names; any other name raises `AttributeError` naming it |
| `Users.Blank` | github_api_client/users.py:8-16 | the object handed to `__init__` has no slot set yet, which trivially keeps it within the allowed names |
| `Users.Supplied` | github_api_client/users.py:22-23 | a missing (`None`) argument is treated as a mapping with no keys; a given mapping is used with its own keys and values |
| `Users.Lookup` | github_api_client/users.py:30 | `initial.get(attr, None)`: a present key gives its value; a missing key gives `None` |
| `Users.GetAttr` | github_api_client/tests/test_users.py:20-23 | reading succeeds exactly for an allowed name whose slot is set and yields the slot's value; an unknown name raises `AttributeError` |
| `Users.Populate` | github_api_client/users.py:29-30 | the `setattr` loop leaves every visited slot holding its value looked up in the mapping (`None` when absent), whatever the visiting order, and leaves every other slot as it was |
| `Users.Init` | github_api_client/users.py:16-30 | `__init__` raises exactly when some key is not allowed, naming exactly the unknown keys; on failure the object is unchanged (validation precedes every write); on success every allowed slot holds the looked-up value |
| `Users.New` | github_api_client/users.py:16-30 | construction succeeds iff the supplied keys are all allowed; the error names all unknown keys and is non-empty; on success every allowed slot is set, supplied keys hold their values and all others hold `None` |
| `Users.EmptyConstruction` | github_api_client/users.py:22-23 | no mapping and an empty mapping both construct the same record, with every attribute `None` |
| `Users.ConstructedReads` | github_api_client/tests/test_users.py:6-23 | after construction every allowed attribute can be read, giving the supplied value or `None`, and no other name can be read |
| `Users.ReadAfterWrite` | github_api_client/tests/test_users.py:25-49 | after assigning an allowed attribute, reading it gives the assigned value and reading any other name gives what it gave before |
| `Users.SetAttrOverwrites` | github_api_client/tests/test_users.py:25-30 | assigning an attribute twice is the same as assigning only the second value |
| `Users.NewThenSetAttr` | github_api_client/tests/test_users.py:20-30 | constructing from a mapping and then assigning an allowed attribute gives the same record as constructing from the mapping updated with that value |
| `Users.NewRoundTrip` | github_api_client/users.py:29-30 | every fully populated record is what the constructor builds from its own slots |
| `RunChecks.AllActions` | run_checks.py:12 | the list of all actions has one entry per key, holds exactly the keys, and lists them in mapping order |
| `RunChecks.SelectedActions` | run_checks.py:13 | the selected list holds exactly the keys whose flag is set, in mapping order, and is empty iff no flag is set |
| `RunChecks.ExtractActions` | run_checks.py:9-14 | with some flag set the result holds exactly the selected keys; otherwise it holds every key; it lists only keys, in mapping order, and is empty iff the mapping is |
| `RunChecks.MappingOrderUnique` | run_checks.py:12-13 | two lists of keys in mapping order with the same members are equal |
| `RunChecks.ExtractActionsCharacterized` | run_checks.py:9-14 | for a mapping with distinct keys, a list is the selected-or-all action list in mapping order exactly when it equals the result |
| `RunChecks.ExtractActionsShape` | run_checks.py:14 | the result is empty only for an empty mapping, is no longer than the mapping, and repeats no action |

## Left out

- `github_api_client/helpers.py` is not modelled. It only does I/O: an HTTP GET through `requests`, URL joining by `urljoin`, and a header built from global settings.
- `github_api_client/exceptions.py` is not modelled. It only declares exception classes that have no behaviour.
- The rest of `run_checks.py` is not modelled: `_output`, `run_checks`, the five check functions and `main`. They run subprocesses, call `eval`, print and parse arguments.
- `setup.py` is not modelled. It is packaging metadata.
- Plan and other private-account information is not a `User` attribute (`github_api_client/users.py:5`), and `users.py` defines no other record type, so no record hierarchy is modelled.
- Deleting an attribute (`del u.login`, which unsets a slot) is not modelled. Nothing in the module does it.
- Class-level attributes are not modelled, for example reading `u.__slots__` or assigning `u.__class__`. `GetAttr` and `SetAttr` cover only instance slots.
- Mapping keys are modelled as strings. A Python mapping can have non-string keys, and those would also be rejected as unknown names.
- Users.SetAttr: the error carries the rejected name as a one-element set; the text of Python's error message is not modelled.
- Users.GetAttr: reading an unset slot fails like reading an unknown name, and the two Python error messages are not told apart.
