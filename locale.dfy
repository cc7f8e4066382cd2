/**
 * The localization table: messages are loaded from a RON document whose
 * nested maps are flattened into dot-separated keys, a lookup falls back
 * to the key itself, and the language is the first two characters of the
 * system locale.
 */
module Locale {
  import opened Wrappers

  /** A RON value, with a map's entries in the order the decoder yields them. */
  datatype Value = VString(str: string) | VMap(entries: seq<(Value, Value)>) | VOther

  /** The key of a child entry: no leading dot at the top level. */
  function Child(current: string, key: string): string {
    if current == [] then key else current + "." + key
  }

  /** Measure shared by the flattening functions: a map outranks the walk over its entries. */
  function Rank(v: Value): nat {
    if v.VMap? then |v.entries| + 1 else 0
  }

  /** `flatten_value(value, messages, current_key)`: a string is stored, a map is walked, anything else is skipped. */
  function FlattenInto(m: map<string, string>, v: Value, current: string): map<string, string>
    decreases v, Rank(v)
  {
    match v
    case VString(s) => m[current := s]
    case VMap(e) => FlattenEntries(m, v, 0, current)
    case VOther => m
  }

  /** The loop over a map's entries from the `i`-th on; an entry whose key is not a string contributes nothing. */
  function FlattenEntries(m: map<string, string>, v: Value, i: nat, current: string): map<string, string>
    requires v.VMap? && i <= |v.entries|
    decreases v, |v.entries| - i
  {
    if i == |v.entries| then m
    else
      var (key, child) := v.entries[i];
      var m1 := if key.VString? then FlattenInto(m, child, Child(current, key.str)) else m;
      FlattenEntries(m1, v, i + 1, current)
  }

  /** `k` is the dotted path, below `current`, of a string leaf of `v`. */
  ghost predicate Reaches(v: Value, current: string, k: string)
    decreases v, Rank(v)
  {
    match v
    case VString(_) => k == current
    case VMap(e) => ReachesEntries(v, 0, current, k)
    case VOther => false
  }

  ghost predicate ReachesEntries(v: Value, i: nat, current: string, k: string)
    requires v.VMap? && i <= |v.entries|
    decreases v, |v.entries| - i
  {
    i < |v.entries| &&
    ((v.entries[i].0.VString? && Reaches(v.entries[i].1, Child(current, v.entries[i].0.str), k)) ||
     ReachesEntries(v, i + 1, current, k))
  }

  /** `v` has a string leaf holding `text` at the dotted path `k` below `current`. */
  ghost predicate LeafAt(v: Value, current: string, k: string, text: string)
    decreases v, Rank(v)
  {
    match v
    case VString(s) => k == current && s == text
    case VMap(e) => LeafAtEntries(v, 0, current, k, text)
    case VOther => false
  }

  ghost predicate LeafAtEntries(v: Value, i: nat, current: string, k: string, text: string)
    requires v.VMap? && i <= |v.entries|
    decreases v, |v.entries| - i
  {
    i < |v.entries| &&
    ((v.entries[i].0.VString? && LeafAt(v.entries[i].1, Child(current, v.entries[i].0.str), k, text)) ||
     LeafAtEntries(v, i + 1, current, k, text))
  }

  /** Every stored text is either the one already there or the text of a leaf at that key's path. */
  lemma {:induction false} FlattenValuesFromLeaves(m: map<string, string>, v: Value, current: string)
    ensures var r := FlattenInto(m, v, current);
      forall k :: k in r ==> (k in m && r[k] == m[k]) || LeafAt(v, current, k, r[k])
    decreases v, Rank(v)
  {
    if v.VMap? {
      FlattenEntriesValuesFromLeaves(m, v, 0, current);
    }
  }

  lemma {:induction false} FlattenEntriesValuesFromLeaves(m: map<string, string>, v: Value, i: nat, current: string)
    requires v.VMap? && i <= |v.entries|
    ensures var r := FlattenEntries(m, v, i, current);
      forall k :: k in r ==> (k in m && r[k] == m[k]) || LeafAtEntries(v, i, current, k, r[k])
    decreases v, |v.entries| - i
  {
    if i < |v.entries| {
      var (key, child) := v.entries[i];
      var m1 := if key.VString? then FlattenInto(m, child, Child(current, key.str)) else m;
      if key.VString? {
        FlattenValuesFromLeaves(m, child, Child(current, key.str));
      }
      FlattenEntriesValuesFromLeaves(m1, v, i + 1, current);
    }
  }

  /** Flattening only adds keys that are dotted paths to string leaves. */
  lemma {:induction false} FlattenOnlyLeaves(m: map<string, string>, v: Value, current: string)
    ensures forall k :: k in FlattenInto(m, v, current) ==> k in m || Reaches(v, current, k)
    decreases v, Rank(v)
  {
    if v.VMap? {
      FlattenEntriesOnlyLeaves(m, v, 0, current);
    }
  }

  lemma {:induction false} FlattenEntriesOnlyLeaves(m: map<string, string>, v: Value, i: nat, current: string)
    requires v.VMap? && i <= |v.entries|
    ensures forall k :: k in FlattenEntries(m, v, i, current) ==> k in m || ReachesEntries(v, i, current, k)
    decreases v, |v.entries| - i
  {
    if i < |v.entries| {
      var (key, child) := v.entries[i];
      var m1 := if key.VString? then FlattenInto(m, child, Child(current, key.str)) else m;
      if key.VString? {
        FlattenOnlyLeaves(m, child, Child(current, key.str));
      }
      FlattenEntriesOnlyLeaves(m1, v, i + 1, current);
    }
  }

  /** Flattening never drops a key that was already there. */
  lemma {:induction false} FlattenKeeps(m: map<string, string>, v: Value, current: string)
    ensures forall k :: k in m ==> k in FlattenInto(m, v, current)
    decreases v, Rank(v)
  {
    if v.VMap? {
      FlattenEntriesKeeps(m, v, 0, current);
    }
  }

  lemma {:induction false} FlattenEntriesKeeps(m: map<string, string>, v: Value, i: nat, current: string)
    requires v.VMap? && i <= |v.entries|
    ensures forall k :: k in m ==> k in FlattenEntries(m, v, i, current)
    decreases v, |v.entries| - i
  {
    if i < |v.entries| {
      var (key, child) := v.entries[i];
      var m1 := if key.VString? then FlattenInto(m, child, Child(current, key.str)) else m;
      if key.VString? {
        FlattenKeeps(m, child, Child(current, key.str));
      }
      FlattenEntriesKeeps(m1, v, i + 1, current);
    }
  }

  /** Flattening stores every string leaf under its dotted path. */
  lemma {:induction false} FlattenStoresLeaves(m: map<string, string>, v: Value, current: string, k: string)
    requires Reaches(v, current, k)
    ensures k in FlattenInto(m, v, current)
    decreases v, Rank(v)
  {
    if v.VMap? {
      FlattenEntriesStoresLeaves(m, v, 0, current, k);
    }
  }

  lemma {:induction false} FlattenEntriesStoresLeaves(m: map<string, string>, v: Value, i: nat, current: string, k: string)
    requires v.VMap? && i <= |v.entries| && ReachesEntries(v, i, current, k)
    ensures k in FlattenEntries(m, v, i, current)
    decreases v, |v.entries| - i
  {
    var (key, child) := v.entries[i];
    var m1 := if key.VString? then FlattenInto(m, child, Child(current, key.str)) else m;
    if key.VString? && Reaches(child, Child(current, key.str), k) {
      FlattenStoresLeaves(m, child, Child(current, key.str), k);
      FlattenEntriesKeeps(m1, v, i + 1, current);
    } else {
      FlattenEntriesStoresLeaves(m1, v, i + 1, current, k);
    }
  }

  /** The keys after flattening are exactly the old keys and the dotted paths of the string leaves. */
  lemma FlattenKeys(m: map<string, string>, v: Value, current: string, k: string)
    ensures k in FlattenInto(m, v, current) <==> k in m || Reaches(v, current, k)
  {
    FlattenOnlyLeaves(m, v, current);
    FlattenKeeps(m, v, current);
    if Reaches(v, current, k) {
      FlattenStoresLeaves(m, v, current, k);
    }
  }

  /** A leaf holding a text is a leaf. */
  lemma {:induction false} LeafReaches(v: Value, current: string, k: string, text: string)
    requires LeafAt(v, current, k, text)
    ensures Reaches(v, current, k)
    decreases v, Rank(v)
  {
    if v.VMap? {
      LeafEntriesReach(v, 0, current, k, text);
    }
  }

  lemma {:induction false} LeafEntriesReach(v: Value, i: nat, current: string, k: string, text: string)
    requires v.VMap? && i <= |v.entries| && LeafAtEntries(v, i, current, k, text)
    ensures ReachesEntries(v, i, current, k)
    decreases v, |v.entries| - i
  {
    if v.entries[i].0.VString? && LeafAt(v.entries[i].1, Child(current, v.entries[i].0.str), k, text) {
      LeafReaches(v.entries[i].1, Child(current, v.entries[i].0.str), k, text);
    } else {
      LeafEntriesReach(v, i + 1, current, k, text);
    }
  }

  /** A new key whose leaves all hold one text is stored with that text. */
  lemma FlattenStoresText(m: map<string, string>, v: Value, current: string, k: string, text: string)
    requires k !in m && LeafAt(v, current, k, text)
    requires forall other :: LeafAt(v, current, k, other) ==> other == text
    ensures k in FlattenInto(m, v, current) && FlattenInto(m, v, current)[k] == text
  {
    LeafReaches(v, current, k, text);
    FlattenStoresLeaves(m, v, current, k);
    FlattenValuesFromLeaves(m, v, current);
  }

  /** A top-level string entry is stored under its own key, and a nested one under `outer.inner`. */
  lemma FlattenExamples(m: map<string, string>, a: string, b: string, s: string)
    requires a != []
    ensures FlattenInto(m, VMap([(VString(a), VString(s))]), "") == m[a := s]
    ensures FlattenInto(m, VMap([(VString(a), VMap([(VString(b), VString(s))]))]), "") == m[a + "." + b := s]
  {
    var top := VMap([(VString(a), VString(s))]);
    assert Child("", a) == a;
    assert top.entries[0] == (VString(a), VString(s));
    assert FlattenInto(m, VString(s), a) == m[a := s];
    assert FlattenEntries(m[a := s], top, 1, "") == m[a := s];
    assert FlattenEntries(m, top, 0, "") == m[a := s];
    var inner := VMap([(VString(b), VString(s))]);
    var nested := VMap([(VString(a), inner)]);
    assert Child(a, b) == a + "." + b;
    assert inner.entries[0] == (VString(b), VString(s));
    assert nested.entries[0] == (VString(a), inner);
    assert FlattenInto(m, VString(s), a + "." + b) == m[a + "." + b := s];
    assert FlattenEntries(m[a + "." + b := s], inner, 1, a) == m[a + "." + b := s];
    assert FlattenEntries(m, inner, 0, a) == m[a + "." + b := s];
    assert FlattenInto(m, inner, a) == m[a + "." + b := s];
    assert FlattenEntries(m[a + "." + b := s], nested, 1, "") == m[a + "." + b := s];
  }

  /** `initialize`: the first two characters of the system locale, "en" when there is none. */
  function Lang(system: Option<string>): (r: string)
    ensures system.None? ==> r == "en"
    ensures system.Some? ==> |r| == (if |system.value| < 2 then |system.value| else 2) && r == system.value[..|r|]
  {
    var full := system.GetOr("en");
    if |full| <= 2 then full else full[..2]
  }

  class Locale {
    var lang: string
    var messages: map<string, string>

    /**
     * `initialize`, with the document the locale file decoded to (none when
     * the file is missing, unreadable or not RON): `load_messages` flattens
     * it into an empty table, and a failure leaves the table empty.
     */
    constructor Initialize(system: Option<string>, decoded: Option<Value>)
      ensures lang == Lang(system)
      ensures decoded.None? ==> messages == map[]
      ensures decoded.Some? ==> messages == FlattenInto(map[], decoded.value, "")
    {
      lang := Lang(system);
      messages := map[];
      new;
      if decoded.Some? {
        FlattenValue(decoded.value, "");
      }
    }

    /** `msg`: the stored message, or the key itself. */
    function Msg(key: string): (r: string)
      reads this
      ensures key in messages ==> r == messages[key]
      ensures key !in messages ==> r == key
    {
      if key in messages then messages[key] else key
    }

    /** `flatten_value`, walking the value and inserting into `messages`. */
    method FlattenValue(v: Value, current: string)
      modifies this
      ensures messages == FlattenInto(old(messages), v, current)
      ensures lang == old(lang)
      decreases v
    {
      match v {
        case VString(s) =>
          messages := messages[current := s];
        case VMap(e) =>
          var i := 0;
          while i < |e|
            invariant 0 <= i <= |e|
            invariant lang == old(lang)
            invariant FlattenEntries(messages, v, i, current) == FlattenEntries(old(messages), v, 0, current)
          {
            var (key, child) := e[i];
            if key.VString? {
              FlattenValue(child, Child(current, key.str));
            }
            i := i + 1;
          }
        case VOther =>
      }
    }
  }
}
