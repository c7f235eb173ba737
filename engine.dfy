/**
  The rules of the synchronisation engine stated as functions over values:
  how the sources are merged, which alias supplies an option's value, what
  a read assigns, and which options a write hands to a source.
 */
module Engine {
  import opened Wrappers
  import opened Values
  import opened Coercion

  /**
    One registered option: its declaration and its current value. aliases
    holds the option's own name first, then the declared aliases.
   */
  datatype Property = Property(
    name: string,
    tag: Tag,
    default: Value,
    aliases: seq<string>,
    storage: seq<SourceId>,
    value: Value)

  /** What the construction guarantees of every option. */
  predicate WellFormed(p: Property) {
    |p.aliases| > 0 && p.aliases[0] == p.name && TagOf(p.default) == p.tag
  }

  predicate DistinctNames(ps: seq<Property>) {
    forall i, j :: 0 <= i < j < |ps| ==> ps[i].name != ps[j].name
  }

  // ---------------------------------------------------------------------
  // Reading
  // ---------------------------------------------------------------------

  /** What source s returns when read. */
  function Snapshot(cookie: map<string, Entry>, fragment: map<string, Entry>, s: SourceId): map<string, Entry> {
    if s == Cookie then cookie else fragment
  }

  /** $.extend({}, read(s1), read(s2), ...): later sources overwrite earlier ones. */
  function Merged(cookie: map<string, Entry>, fragment: map<string, Entry>, sources: seq<SourceId>): (r: map<string, Entry>)
    ensures r.Keys <= cookie.Keys + fragment.Keys
    decreases |sources|
  {
    if sources == [] then map[]
    else Merged(cookie, fragment, sources[..|sources| - 1]) + Snapshot(cookie, fragment, sources[|sources| - 1])
  }

  /** A key is in the merged map exactly when some source read has it. */
  lemma {:induction false} MergeMembership(cookie: map<string, Entry>, fragment: map<string, Entry>,
                                           sources: seq<SourceId>, key: string)
    ensures key in Merged(cookie, fragment, sources) <==>
              exists i :: 0 <= i < |sources| && key in Snapshot(cookie, fragment, sources[i])
    decreases |sources|
  {
    if sources != [] {
      var n := |sources| - 1;
      var front := sources[..n];
      MergeMembership(cookie, fragment, front, key);
      if key in Merged(cookie, fragment, sources) && key !in Snapshot(cookie, fragment, sources[n]) {
        var i :| 0 <= i < n && key in Snapshot(cookie, fragment, front[i]);
        assert sources[i] == front[i];
      }
      if i :| 0 <= i < |sources| && key in Snapshot(cookie, fragment, sources[i]) {
        if i < n {
          assert front[i] == sources[i];
        }
      }
    }
  }

  /** The merged value of a key comes from the last source in the order that has it. */
  lemma {:induction false} MergeLastWins(cookie: map<string, Entry>, fragment: map<string, Entry>,
                                         sources: seq<SourceId>, key: string, i: int)
    requires 0 <= i < |sources| && key in Snapshot(cookie, fragment, sources[i])
    requires forall j :: i < j < |sources| ==> key !in Snapshot(cookie, fragment, sources[j])
    ensures key in Merged(cookie, fragment, sources)
    ensures Merged(cookie, fragment, sources)[key] == Snapshot(cookie, fragment, sources[i])[key]
    decreases |sources|
  {
    var n := |sources| - 1;
    if i < n {
      var front := sources[..n];
      assert front[i] == sources[i];
      forall j | i < j < |front|
        ensures key !in Snapshot(cookie, fragment, front[j])
      {
        assert front[j] == sources[j];
      }
      MergeLastWins(cookie, fragment, front, key, i);
      assert key !in Snapshot(cookie, fragment, sources[n]);
    }
  }

  /**
    Merge precedence: a key is in the merged map exactly when some source
    has it, and its value comes from the last source in the order that has it.
   */
  lemma MergePrecedence(cookie: map<string, Entry>, fragment: map<string, Entry>,
                        sources: seq<SourceId>, key: string)
    ensures key in Merged(cookie, fragment, sources) <==>
              exists i :: 0 <= i < |sources| && key in Snapshot(cookie, fragment, sources[i])
    ensures forall i :: 0 <= i < |sources| && key in Snapshot(cookie, fragment, sources[i])
                        && (forall j :: i < j < |sources| ==> key !in Snapshot(cookie, fragment, sources[j]))
                        ==> Merged(cookie, fragment, sources)[key] == Snapshot(cookie, fragment, sources[i])[key]
  {
    MergeMembership(cookie, fragment, sources, key);
    forall i | 0 <= i < |sources| && key in Snapshot(cookie, fragment, sources[i])
                && (forall j :: i < j < |sources| ==> key !in Snapshot(cookie, fragment, sources[j]))
      ensures Merged(cookie, fragment, sources)[key] == Snapshot(cookie, fragment, sources[i])[key]
    {
      MergeLastWins(cookie, fragment, sources, key, i);
    }
  }

  /** With the default order, the fragment wins over the cookie, and the cookie over nothing. */
  lemma FragmentOverridesCookie(cookie: map<string, Entry>, fragment: map<string, Entry>, key: string)
    ensures key in fragment ==> key in Merged(cookie, fragment, Order) && Merged(cookie, fragment, Order)[key] == fragment[key]
    ensures key !in fragment && key in cookie ==> key in Merged(cookie, fragment, Order) && Merged(cookie, fragment, Order)[key] == cookie[key]
    ensures key !in fragment && key !in cookie ==> key !in Merged(cookie, fragment, Order)
  {
    MergePrecedence(cookie, fragment, Order, key);
    assert Snapshot(cookie, fragment, Order[0]) == cookie;
    assert Snapshot(cookie, fragment, Order[1]) == fragment;
  }

  /** aliases[i] is the first alias the merged map has. */
  ghost predicate FirstAlias(aliases: seq<string>, m: map<string, Entry>, i: int) {
    0 <= i < |aliases| && aliases[i] in m && forall j :: 0 <= j < i ==> aliases[j] !in m
  }

  /**
    The value under the first alias present in the merged map: earlier
    aliases take priority and later ones are ignored.
   */
  function FirstPresent(aliases: seq<string>, m: map<string, Entry>): (r: Option<Entry>)
    ensures r.None? <==> forall i :: 0 <= i < |aliases| ==> aliases[i] !in m
    ensures r.Some? ==> exists i :: FirstAlias(aliases, m, i) && r.value == m[aliases[i]]
  {
    if aliases == [] then None
    else if aliases[0] in m then
      assert FirstAlias(aliases, m, 0);
      Some(m[aliases[0]])
    else
      var r := FirstPresent(aliases[1..], m);
      FirstAliasShift(aliases, m, r);
      r
  }

  lemma FirstAliasShift(aliases: seq<string>, m: map<string, Entry>, r: Option<Entry>)
    requires |aliases| > 0 && aliases[0] !in m
    requires r.Some? ==> exists i :: FirstAlias(aliases[1..], m, i) && r.value == m[aliases[1..][i]]
    ensures r.Some? ==> exists i :: FirstAlias(aliases, m, i) && r.value == m[aliases[i]]
  {
    if r.Some? {
      var i :| FirstAlias(aliases[1..], m, i) && r.value == m[aliases[1..][i]];
      assert FirstAlias(aliases, m, i + 1);
    }
  }

  /** The option's own name, being the first alias, beats every other alias. */
  lemma NameBeatsAliases(p: Property, m: map<string, Entry>)
    requires WellFormed(p) && p.name in m
    ensures FirstPresent(p.aliases, m) == Some(m[p.name])
  {
  }

  /** intersects(a, b): the two lists of sources share an element. */
  predicate Shares(a: seq<SourceId>, b: seq<SourceId>) {
    exists i :: 0 <= i < |a| && a[i] in b
  }

  /**
    The value readOptions assigns to p, if any: the coerced value under its
    first alias present; failing that, its default when defaults are applied
    and p is stored in one of the sources read; otherwise nothing.
   */
  function Incoming(host: Host, p: Property, merged: map<string, Entry>,
                    sources: seq<SourceId>, applyDefaults: bool): (r: Option<Value>)
    ensures r.None? <==>
              (forall i :: 0 <= i < |p.aliases| ==> p.aliases[i] !in merged)
              && !(applyDefaults && Shares(p.storage, sources))
    ensures WellFormed(p) && r.Some? ==> TagOf(r.value) == p.tag
  {
    match FirstPresent(p.aliases, merged)
    case Some(raw) => Some(ParseEntry(host, raw, p.tag))
    case None => if applyDefaults && Shares(p.storage, sources) then Some(p.default) else None
  }

  /**
    The observable's value after it is written with v: a value equal to the
    current one under the comparer is not taken.
   */
  function AfterWrite(host: Host, current: Value, v: Value): (r: Value)
    ensures Equal(host, r, v)
    ensures r == current || r == v
    ensures r == current <==> Equal(host, current, v)
  {
    EqualIsEquivalence(host);
    if Equal(host, current, v) then current else v
  }

  /** p's value after readOptions has processed it. */
  function ReadValue(host: Host, p: Property, merged: map<string, Entry>,
                     sources: seq<SourceId>, applyDefaults: bool): Value
  {
    match Incoming(host, p, merged, sources, applyDefaults)
    case None => p.value
    case Some(v) => AfterWrite(host, p.value, v)
  }

  /**
    What readOptions leaves in p: its own value when nothing is assigned to
    it, and otherwise a value equal, under the comparer, to the one assigned.
   */
  lemma ReadValueMeaning(host: Host, p: Property, merged: map<string, Entry>,
                         sources: seq<SourceId>, applyDefaults: bool)
    ensures Incoming(host, p, merged, sources, applyDefaults).None? ==>
              ReadValue(host, p, merged, sources, applyDefaults) == p.value
    ensures Incoming(host, p, merged, sources, applyDefaults).Some? ==>
              Equal(host, ReadValue(host, p, merged, sources, applyDefaults),
                    Incoming(host, p, merged, sources, applyDefaults).value)
  {
    match Incoming(host, p, merged, sources, applyDefaults)
    case None =>
    case Some(v) => assert Equal(host, AfterWrite(host, p.value, v), v);
  }

  /** Whether readOptions changes p, which makes p's subscription write its storage. */
  predicate Changes(host: Host, p: Property, merged: map<string, Entry>,
                    sources: seq<SourceId>, applyDefaults: bool)
  {
    var incoming := Incoming(host, p, merged, sources, applyDefaults);
    incoming.Some? && !Equal(host, p.value, incoming.value)
  }

  function SourceSet(storage: seq<SourceId>): (r: set<SourceId>)
    ensures forall s :: s in r <==> s in storage
  {
    set s | s in storage
  }

  /** The sources written while readOptions processes the options ps in order. */
  function Touched(host: Host, ps: seq<Property>, merged: map<string, Entry>,
                   sources: seq<SourceId>, applyDefaults: bool): set<SourceId>
    decreases |ps|
  {
    if ps == [] then {}
    else
      var last := ps[|ps| - 1];
      Touched(host, ps[..|ps| - 1], merged, sources, applyDefaults)
        + (if Changes(host, last, merged, sources, applyDefaults) then SourceSet(last.storage) else {})
  }

  /** Touched grows by one option's sources at a time. */
  lemma TouchedStep(host: Host, ps: seq<Property>, p: int, merged: map<string, Entry>,
                    sources: seq<SourceId>, applyDefaults: bool)
    requires 0 <= p < |ps|
    ensures Touched(host, ps[..p + 1], merged, sources, applyDefaults)
            == Touched(host, ps[..p], merged, sources, applyDefaults)
               + (if Changes(host, ps[p], merged, sources, applyDefaults) then SourceSet(ps[p].storage) else {})
  {
    assert ps[..p + 1][..p] == ps[..p];
  }

  /**
    Missing value: when no alias is present, the option is reset to (a value
    equal to) its default exactly when defaults are applied and it is stored
    in one of the sources read; otherwise it keeps its value.
   */
  lemma MissingValue(host: Host, p: Property, merged: map<string, Entry>,
                     sources: seq<SourceId>, applyDefaults: bool)
    requires forall i :: 0 <= i < |p.aliases| ==> p.aliases[i] !in merged
    ensures applyDefaults && Shares(p.storage, sources) ==>
              Equal(host, ReadValue(host, p, merged, sources, applyDefaults), p.default)
    ensures !(applyDefaults && Shares(p.storage, sources)) ==>
              ReadValue(host, p, merged, sources, applyDefaults) == p.value
  {
  }

  /**
    Navigation: re-reading the fragment alone with defaults applied returns
    an option stored in the fragment, and absent from it, to its default;
    an option not stored in the fragment and absent from it is left alone.
   */
  lemma NavigationReset(host: Host, p: Property, fragment: map<string, Entry>)
    requires forall i :: 0 <= i < |p.aliases| ==> p.aliases[i] !in fragment
    ensures Fragment in p.storage ==> Equal(host, ReadValue(host, p, fragment, [Fragment], true), p.default)
    ensures Fragment !in p.storage ==> ReadValue(host, p, fragment, [Fragment], true) == p.value
  {
    if Fragment in p.storage {
      var k :| 0 <= k < |p.storage| && p.storage[k] == Fragment;
      assert p.storage[k] in [Fragment];
    }
    MissingValue(host, p, fragment, [Fragment], true);
  }

  /**
    Present value: when an alias is present, the option takes (a value equal
    to) the coerced value of the first one, whatever its own storage is.
   */
  lemma PresentValue(host: Host, p: Property, merged: map<string, Entry>,
                     sources: seq<SourceId>, applyDefaults: bool, i: int)
    requires FirstAlias(p.aliases, merged, i)
    ensures Equal(host, ReadValue(host, p, merged, sources, applyDefaults),
                  ParseEntry(host, merged[p.aliases[i]], p.tag))
  {
    var r := FirstPresent(p.aliases, merged);
    var j :| FirstAlias(p.aliases, merged, j) && r.value == merged[p.aliases[j]];
    assert i == j;
  }

  // ---------------------------------------------------------------------
  // Writing
  // ---------------------------------------------------------------------

  /** p goes to source s: it is stored there and differs from its default. */
  predicate Eligible(host: Host, p: Property, s: SourceId) {
    s in p.storage && !Equal(host, p.value, p.default)
  }

  /** The names of the options ps. */
  function Names(ps: seq<Property>): set<string>
    decreases |ps|
  {
    if ps == [] then {} else Names(ps[..|ps| - 1]) + {ps[|ps| - 1].name}
  }

  /** The name-to-value object writeOptions hands to source s. */
  function Outgoing(host: Host, ps: seq<Property>, s: SourceId): (r: map<string, Value>)
    ensures r.Keys <= Names(ps)
    decreases |ps|
  {
    if ps == [] then map[]
    else
      var n := |ps| - 1;
      var last := ps[n];
      var front := Outgoing(host, ps[..n], s);
      if Eligible(host, last, s) then front[last.name := last.value] else front
  }

  /** The object for source s has exactly the names of the options stored in s that differ from their default. */
  lemma {:induction false} OutgoingKeys(host: Host, ps: seq<Property>, s: SourceId)
    ensures forall k :: k in Outgoing(host, ps, s) <==>
              exists i :: 0 <= i < |ps| && ps[i].name == k && Eligible(host, ps[i], s)
    decreases |ps|
  {
    if ps != [] {
      var n := |ps| - 1;
      var front := ps[..n];
      OutgoingKeys(host, front, s);
      forall k | k in Outgoing(host, ps, s)
        ensures exists i :: 0 <= i < |ps| && ps[i].name == k && Eligible(host, ps[i], s)
      {
        if Eligible(host, ps[n], s) && k == ps[n].name {
          assert ps[n].name == k && Eligible(host, ps[n], s);
        } else {
          assert k in Outgoing(host, front, s);
          var i :| 0 <= i < n && front[i].name == k && Eligible(host, front[i], s);
          assert ps[i] == front[i];
        }
      }
      forall k | exists i :: 0 <= i < |ps| && ps[i].name == k && Eligible(host, ps[i], s)
        ensures k in Outgoing(host, ps, s)
      {
        var i :| 0 <= i < |ps| && ps[i].name == k && Eligible(host, ps[i], s);
        if i < n {
          assert front[i] == ps[i];
          assert k in Outgoing(host, front, s);
        }
      }
    }
  }

  /** With distinct names, each option that goes to s is written with its current value. */
  lemma {:induction false} OutgoingValues(host: Host, ps: seq<Property>, s: SourceId)
    requires DistinctNames(ps)
    ensures forall i :: 0 <= i < |ps| && Eligible(host, ps[i], s) ==>
              ps[i].name in Outgoing(host, ps, s) && Outgoing(host, ps, s)[ps[i].name] == ps[i].value
    decreases |ps|
  {
    if ps != [] {
      var n := |ps| - 1;
      var front := ps[..n];
      assert DistinctNames(front);
      OutgoingValues(host, front, s);
      forall i | 0 <= i < |ps| && Eligible(host, ps[i], s)
        ensures ps[i].name in Outgoing(host, ps, s) && Outgoing(host, ps, s)[ps[i].name] == ps[i].value
      {
        if i < n {
          assert front[i] == ps[i];
          assert ps[i].name != ps[n].name;
        }
      }
    }
  }

  /**
    Write content: the object for source s has exactly the names of the
    options stored in s whose value differs from their default, each mapped
    to its current value.
   */
  lemma OutgoingContent(host: Host, ps: seq<Property>, s: SourceId)
    requires DistinctNames(ps)
    ensures forall k :: k in Outgoing(host, ps, s) <==>
              exists i :: 0 <= i < |ps| && ps[i].name == k && Eligible(host, ps[i], s)
    ensures forall i :: 0 <= i < |ps| && Eligible(host, ps[i], s) ==>
              ps[i].name in Outgoing(host, ps, s) && Outgoing(host, ps, s)[ps[i].name] == ps[i].value
  {
    OutgoingKeys(host, ps, s);
    OutgoingValues(host, ps, s);
  }

  /**
    A read leaves the object for source s as it was when no option that the
    read changes is stored in s: every option either keeps its value or is
    not written to s.
   */
  lemma {:induction false} ReadKeepsOutgoing(host: Host, ps: seq<Property>, qs: seq<Property>,
                                             merged: map<string, Entry>, sources: seq<SourceId>,
                                             applyDefaults: bool, s: SourceId)
    requires |qs| == |ps|
    requires forall i :: 0 <= i < |ps| ==>
               qs[i] == ps[i].(value := ReadValue(host, ps[i], merged, sources, applyDefaults))
    requires s !in Touched(host, ps, merged, sources, applyDefaults)
    ensures Outgoing(host, qs, s) == Outgoing(host, ps, s)
    decreases |ps|
  {
    if ps != [] {
      var n := |ps| - 1;
      var p, q := ps[n], qs[n];
      TouchedStep(host, ps, n, merged, sources, applyDefaults);
      assert ps[..n + 1] == ps;
      assert s !in Touched(host, ps[..n], merged, sources, applyDefaults);
      assert forall i :: 0 <= i < n ==>
               qs[..n][i] == ps[..n][i].(value := ReadValue(host, ps[..n][i], merged, sources, applyDefaults));
      ReadKeepsOutgoing(host, ps[..n], qs[..n], merged, sources, applyDefaults, s);
      assert q == p.(value := ReadValue(host, p, merged, sources, applyDefaults));
      if !Changes(host, p, merged, sources, applyDefaults) {
        assert ReadValue(host, p, merged, sources, applyDefaults) == p.value;
        assert q == p;
      } else {
        assert s !in SourceSet(p.storage);
        assert !Eligible(host, p, s) && !Eligible(host, q, s);
      }
    }
  }

  /** Default suppression: an option equal to its default is in no source's object. */
  lemma DefaultOmitted(host: Host, ps: seq<Property>, i: int, s: SourceId)
    requires DistinctNames(ps) && 0 <= i < |ps|
    requires Equal(host, ps[i].value, ps[i].default)
    ensures ps[i].name !in Outgoing(host, ps, s)
  {
    OutgoingContent(host, ps, s);
  }

  /** Changing an option that is not stored in s leaves s's object as it was. */
  lemma {:induction false} OutgoingIgnores(host: Host, ps: seq<Property>, i: int, v: Value, s: SourceId)
    requires 0 <= i < |ps| && s !in ps[i].storage
    ensures Outgoing(host, ps[i := ps[i].(value := v)], s) == Outgoing(host, ps, s)
    decreases |ps|
  {
    var qs := ps[i := ps[i].(value := v)];
    var n := |ps| - 1;
    if i < n {
      assert qs[..n] == ps[..n][i := ps[i].(value := v)];
      OutgoingIgnores(host, ps[..n], i, v, s);
      assert qs[n] == ps[n];
    } else {
      assert qs[..n] == ps[..n];
    }
  }

  /** Each value in its fragment form (the fragment writer's date pass). */
  function FragmentForms(host: Host, obj: map<string, Value>): (r: map<string, Value>)
    ensures r.Keys == obj.Keys
  {
    map k | k in obj :: FragmentForm(host, obj[k])
  }

  /** The query-string encoding of an object: String() of each value. */
  function Texts(host: Host, obj: map<string, Value>): (r: map<string, Entry>)
    ensures r.Keys == obj.Keys
    ensures forall k :: k in r ==> r[k].Stored?
  {
    map k | k in obj :: Stored(ToText(host, obj[k]))
  }

  /** The cookie's JSON encoding of an object, as the entries $.parseJSON gives back. */
  function JsonEntries(host: Host, obj: map<string, Value>): (r: map<string, Entry>)
    ensures r.Keys == obj.Keys
  {
    map k | k in obj :: ToJson(host, obj[k])
  }

  /**
    The entries a source holds after it is written with obj: the fragment
    formats midnight dates and stores String() of each value; the cookie
    stores the JSON of each value.
   */
  function Encoded(host: Host, s: SourceId, obj: map<string, Value>): (r: map<string, Entry>)
    ensures r.Keys == obj.Keys
  {
    if s == Fragment then Texts(host, FragmentForms(host, obj)) else JsonEntries(host, obj)
  }
}
