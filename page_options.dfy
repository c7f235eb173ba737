/**
  The options object: construction from property descriptors, the
  observable properties, and the reads and writes that keep them in step
  with the cookie and the URL fragment.
 */
module PageOptions {
  import opened Wrappers
  import opened Values
  import opened Normalize
  import opened Coercion
  import opened Engine

  /** What the caller declares for one option. */
  datatype Descriptor = Descriptor(tag: Tag, default: Value, storage: ListArg, aliases: ListArg)

  /** Why construction was refused. */
  datatype Error =
    | TypeMismatch(name: string, tag: Tag)
    | InvalidOption(token: string, argName: string)

  /** The storage names a descriptor may use. */
  const StorageChoices: seq<string> := ["cookie", "fragment"]

  /** PageOptions.sources[name] for a valid storage name. */
  function SourceNamed(token: string): SourceId {
    if token == "cookie" then Cookie else Fragment
  }

  function StorageOf(tokens: seq<string>): (r: seq<SourceId>)
    ensures |r| == |tokens| && forall k :: 0 <= k < |tokens| ==> r[k] == SourceNamed(tokens[k])
  {
    seq(|tokens|, k requires 0 <= k < |tokens| => SourceNamed(tokens[k]))
  }

  /**
    Why a descriptor is refused, if it is: first a default value whose type
    is not the declared one, then the first storage name that is neither
    "cookie" nor "fragment".
   */
  function DescriptorError(name: string, d: Descriptor): (r: Option<Error>)
    ensures r.None? <==> TagOf(d.default) == d.tag
                         && forall k :: 0 <= k < |TrimAll(Pieces(d.storage))| ==> TrimAll(Pieces(d.storage))[k] in StorageChoices
    ensures TagOf(d.default) != d.tag ==> r == Some(TypeMismatch(name, d.tag))
  {
    if TagOf(d.default) != d.tag then Some(TypeMismatch(name, d.tag))
    else match FirstInvalid(TrimAll(Pieces(d.storage)), StorageChoices)
      case Some(t) => Some(InvalidOption(t, "storage"))
      case None => None
  }

  /** The option a valid descriptor declares, holding its default value. */
  function Declare(name: string, d: Descriptor): (p: Property)
    requires DescriptorError(name, d).None?
    ensures WellFormed(p) && p.name == name && p.value == p.default == d.default && p.tag == d.tag
    ensures p.aliases == [name] + TrimAll(Pieces(d.aliases))
    ensures forall s :: s in p.storage <==>
              (s == Cookie && "cookie" in TrimAll(Pieces(d.storage))) || (s == Fragment && "fragment" in TrimAll(Pieces(d.storage)))
  {
    var storage := StorageOf(TrimAll(Pieces(d.storage)));
    assert forall s :: s in storage ==> exists k :: 0 <= k < |storage| && storage[k] == s;
    Property(name, d.tag, d.default, [name] + TrimAll(Pieces(d.aliases)), storage, d.default)
  }

  predicate DistinctKeys(props: seq<(string, Descriptor)>) {
    forall i, j :: 0 <= i < j < |props| ==> props[i].0 != props[j].0
  }

  /** The options a list of valid descriptors declares, in order. */
  function DeclareAll(props: seq<(string, Descriptor)>): (ps: seq<Property>)
    requires forall i :: 0 <= i < |props| ==> DescriptorError(props[i].0, props[i].1).None?
    ensures |ps| == |props| && forall i :: 0 <= i < |props| ==> ps[i] == Declare(props[i].0, props[i].1)
  {
    seq(|props|, k requires 0 <= k < |props| => Declare(props[k].0, props[k].1))
  }

  /** props[i] is the first descriptor refused, for the reason e. */
  ghost predicate FirstRefused(props: seq<(string, Descriptor)>, i: int, e: Error) {
    0 <= i < |props| && DescriptorError(props[i].0, props[i].1) == Some(e)
    && forall k :: 0 <= k < i ==> DescriptorError(props[k].0, props[k].1).None?
  }

  /**
    The loop of the constructor: each descriptor in turn is checked and
    turned into an option; the first refused descriptor ends construction.
   */
  method BuildProperties(props: seq<(string, Descriptor)>) returns (r: Result<seq<Property>, Error>)
    requires DistinctKeys(props)
    ensures r.Success? <==> forall i :: 0 <= i < |props| ==> DescriptorError(props[i].0, props[i].1).None?
    ensures r.Success? ==> r.value == DeclareAll(props) && DistinctNames(r.value)
    ensures r.Failure? ==> exists i :: FirstRefused(props, i, r.error)
  {
    var properties: seq<Property> := [];
    for n := 0 to |props|
      invariant |properties| == n
      invariant forall i :: 0 <= i < n ==> DescriptorError(props[i].0, props[i].1).None?
                                           && properties[i] == Declare(props[i].0, props[i].1)
    {
      var (name, d) := props[n];
      if TagOf(d.default) != d.tag {
        assert FirstRefused(props, n, TypeMismatch(name, d.tag));
        return Failure(TypeMismatch(name, d.tag));
      }
      var aliases := NormalizeArray(d.aliases, None);
      var tokens := NormalizeArray(d.storage, Some(StorageChoices));
      if tokens.Failure? {
        assert FirstRefused(props, n, InvalidOption(tokens.error, "storage"));
        return Failure(InvalidOption(tokens.error, "storage"));
      }
      var storage := StorageOf(tokens.value);
      properties := properties + [Property(name, d.tag, d.default, [name] + aliases.value, storage, d.default)];
    }
    return Success(properties);
  }

  /** intersects(a, b), with its early return. */
  method Intersects(a: seq<SourceId>, b: seq<SourceId>) returns (r: bool)
    ensures r <==> Shares(a, b)
  {
    for i := 0 to |a|
      invariant forall k :: 0 <= k < i ==> a[k] !in b
    {
      if a[i] in b {
        return true;
      }
    }
    return false;
  }

  /** The grep and the copy of writeOptions: the object written to source s. */
  method CollectOutgoing(host: Host, ps: seq<Property>, s: SourceId) returns (obj: map<string, Value>)
    ensures obj == Outgoing(host, ps, s)
  {
    obj := map[];
    for j := 0 to |ps|
      invariant obj == Outgoing(host, ps[..j], s)
    {
      assert ps[..j + 1][..j] == ps[..j];
      if s in ps[j].storage && !Equal(host, ps[j].value, ps[j].default) {
        obj := obj[ps[j].name := ps[j].value];
      }
    }
    assert ps[..|ps|] == ps;
  }

  /** The fragment writer's pass over the values, reformatting midnight dates. */
  method FormatFragmentDates(host: Host, values: map<string, Value>) returns (out: map<string, Value>)
    ensures out == FragmentForms(host, values)
  {
    out := ReplaceEach(values, v => FragmentForm(host, v));
  }

  /** $.each over an object, replacing each value by f of it in place. */
  method ReplaceEach(values: map<string, Value>, f: Value -> Value) returns (out: map<string, Value>)
    ensures out.Keys == values.Keys
    ensures forall k :: k in values ==> out[k] == f(values[k])
  {
    out := values;
    var pending := values.Keys;
    while pending != {}
      invariant pending <= values.Keys && out.Keys == values.Keys
      invariant forall k :: k in values && k !in pending ==> out[k] == f(values[k])
      invariant forall k :: k in pending ==> out[k] == values[k]
      decreases pending
    {
      var name :| name in pending;
      out := out[name := f(values[name])];
      pending := pending - {name};
    }
  }

  /**
    A PageOptions instance: the options, in declaration order, and what
    the cookie named cookieName and the URL fragment currently hold.
   */
  class OptionSet {
    const cookieName: string
    const host: Host
    var properties: seq<Property>
    var cookie: map<string, Entry>
    var fragment: map<string, Entry>

    ghost predicate Valid()
      reads this
    {
      DistinctNames(properties) && forall i :: 0 <= i < |properties| ==> WellFormed(properties[i])
    }

    /** What source s holds. */
    function Store(s: SourceId): map<string, Entry>
      reads this
    {
      Snapshot(cookie, fragment, s)
    }

    /** Source s holds exactly what writeOptions would write to it now. */
    ghost predicate InSync(s: SourceId)
      reads this
    {
      Store(s) == Encoded(host, s, Outgoing(host, properties, s))
    }

    constructor (cookieName: string, host: Host, properties: seq<Property>,
                 cookie: map<string, Entry>, fragment: map<string, Entry>)
      ensures this.cookieName == cookieName && this.host == host && this.properties == properties
      ensures this.cookie == cookie && this.fragment == fragment
    {
      this.cookieName := cookieName;
      this.host := host;
      this.properties := properties;
      this.cookie := cookie;
      this.fragment := fragment;
    }

    /** source.write(cookieName, obj) for one source. */
    method WriteSource(s: SourceId, obj: map<string, Value>)
      modifies this
      ensures properties == old(properties)
      ensures Store(s) == Encoded(host, s, obj)
      ensures forall t :: t != s ==> Store(t) == old(Store(t))
    {
      if s == Fragment {
        WriteFragment(obj);
        assert Store(Fragment) == fragment && Store(Cookie) == cookie;
      } else {
        WriteCookie(obj);
        assert Store(Fragment) == fragment && Store(Cookie) == cookie;
      }
    }

    /** The fragment's writer: format the dates, then replace the whole fragment. */
    method WriteFragment(obj: map<string, Value>)
      modifies this
      ensures fragment == Texts(host, FragmentForms(host, obj))
      ensures properties == old(properties) && cookie == old(cookie)
    {
      var formatted := FormatFragmentDates(host, obj);
      fragment := Texts(host, formatted);
    }

    /** The cookie's writer: replace the cookie with the object's JSON. */
    method WriteCookie(obj: map<string, Value>)
      modifies this
      ensures cookie == JsonEntries(host, obj)
      ensures properties == old(properties) && fragment == old(fragment)
    {
      cookie := JsonEntries(host, obj);
    }

    /**
      writeOptions(sources): every source listed receives the options stored
      in it that differ from their defaults; the others are left alone.
     */
    method WriteOptions(sources: seq<SourceId>)
      requires Valid()
      modifies this
      ensures properties == old(properties) && Valid()
      ensures forall s :: s in sources ==> InSync(s)
      ensures forall s :: s !in sources ==> Store(s) == old(Store(s))
    {
      for i := 0 to |sources|
        invariant properties == old(properties)
        invariant forall s :: s in sources[..i] ==> InSync(s)
        invariant forall s :: s !in sources[..i] ==> Store(s) == old(Store(s))
      {
        var obj := CollectOutgoing(host, properties, sources[i]);
        WriteSource(sources[i], obj);
        assert sources[..i + 1] == sources[..i] + [sources[i]];
      }
      assert sources[..|sources|] == sources;
    }

    /**
      Writing v to the option at index i: a value equal to the current one
      changes nothing; any other value is taken and the option's storage
      is rewritten. A source that is not rewritten keeps its content, and
      stays in step with the options if it was.
     */
    method Set(i: int, v: Value)
      requires Valid() && 0 <= i < |properties|
      modifies this
      ensures Valid()
      ensures properties == old(properties)[i := old(properties[i]).(value := AfterWrite(host, old(properties[i].value), v))]
      ensures forall s :: s in old(properties[i].storage) && !Equal(host, old(properties[i].value), v) ==> InSync(s)
      ensures forall s :: !(s in old(properties[i].storage) && !Equal(host, old(properties[i].value), v)) ==>
                Store(s) == old(Store(s)) && (old(InSync(s)) ==> InSync(s))
    {
      if !Equal(host, properties[i].value, v) {
        ghost var before := properties;
        properties := properties[i := properties[i].(value := v)];
        forall s | s !in before[i].storage
          ensures Outgoing(host, properties, s) == Outgoing(host, before, s)
        {
          OutgoingIgnores(host, before, i, v, s);
        }
        WriteOptions(properties[i].storage);
      } else {
        assert properties == properties[i := properties[i].(value := properties[i].value)];
      }
    }

    /**
      readOptions(sources, applyDefaults): merges the sources (all of them,
      in precedence order, when none are given) and gives each option the
      value readOptions assigns it. Each option that changes rewrites its
      own storage, so on return every source written is in step with the
      options and every other source is as it was.
     */
    method ReadOptions(sources: Option<seq<SourceId>>, applyDefaults: bool)
      requires Valid()
      modifies this
      ensures Valid()
      ensures var srcs := if sources.Some? then sources.value else Order;
              var merged := Merged(old(cookie), old(fragment), srcs);
              |properties| == |old(properties)|
              && (forall i :: 0 <= i < |properties| ==>
                    properties[i] == old(properties[i]).(value := ReadValue(host, old(properties[i]), merged, srcs, applyDefaults)))
              && (forall s :: s in Touched(host, old(properties), merged, srcs, applyDefaults) ==> InSync(s))
              && (forall s :: s !in Touched(host, old(properties), merged, srcs, applyDefaults) ==> Store(s) == old(Store(s)))
              && (forall s :: s !in Touched(host, old(properties), merged, srcs, applyDefaults) && old(InSync(s)) ==> InSync(s))
    {
      var srcs := if sources.Some? then sources.value else Order;
      var merged := Merged(cookie, fragment, srcs);
      ReadMerged(merged, srcs, applyDefaults);
      forall s | s !in Touched(host, old(properties), merged, srcs, applyDefaults)
        ensures Outgoing(host, properties, s) == Outgoing(host, old(properties), s)
      {
        ReadKeepsOutgoing(host, old(properties), properties, merged, srcs, applyDefaults, s);
      }
    }

    /** The loop of readOptions over the options, once the sources are merged. */
    method ReadMerged(merged: map<string, Entry>, srcs: seq<SourceId>, applyDefaults: bool)
      requires Valid()
      modifies this
      ensures Valid() && |properties| == |old(properties)|
      ensures forall i :: 0 <= i < |properties| ==>
                properties[i] == old(properties[i]).(value := ReadValue(host, old(properties[i]), merged, srcs, applyDefaults))
      ensures StoresAfterRead(Touched(host, old(properties), merged, srcs, applyDefaults), old(cookie), old(fragment))
    {
      ghost var before := properties;
      ghost var cookie0, fragment0 := cookie, fragment;
      var p := 0;
      while p < |properties|
        invariant 0 <= p <= |properties| == |before| && Valid()
        invariant forall i :: 0 <= i < p ==>
                    properties[i] == before[i].(value := ReadValue(host, before[i], merged, srcs, applyDefaults))
        invariant forall i :: p <= i < |properties| ==> properties[i] == before[i]
        invariant StoresAfterRead(Touched(host, before[..p], merged, srcs, applyDefaults), cookie0, fragment0)
      {
        ghost var written := Touched(host, before[..p], merged, srcs, applyDefaults);
        TouchedStep(host, before, p, merged, srcs, applyDefaults);
        assert properties[p] == before[p];
        ReadOne(p, merged, srcs, applyDefaults, written, cookie0, fragment0);
        p := p + 1;
      }
      assert before[..|before|] == before;
    }

    /**
      The sources written so far during a read are in step with the options;
      the others still hold what they held when the read began.
     */
    ghost predicate StoresAfterRead(written: set<SourceId>, cookie0: map<string, Entry>, fragment0: map<string, Entry>)
      reads this
    {
      forall s :: if s in written then InSync(s) else Store(s) == Snapshot(cookie0, fragment0, s)
    }

    /** One pass of readOptions' loop: option p takes the value the read assigns it. */
    method ReadOne(p: int, merged: map<string, Entry>, srcs: seq<SourceId>, applyDefaults: bool,
                   ghost written: set<SourceId>, ghost cookie0: map<string, Entry>, ghost fragment0: map<string, Entry>)
      requires Valid() && 0 <= p < |properties|
      requires StoresAfterRead(written, cookie0, fragment0)
      modifies this
      ensures Valid()
      ensures properties == old(properties)[p := old(properties[p]).(value := ReadValue(host, old(properties[p]), merged, srcs, applyDefaults))]
      ensures StoresAfterRead(written + (if Changes(host, old(properties[p]), merged, srcs, applyDefaults)
                                         then SourceSet(old(properties[p].storage)) else {}), cookie0, fragment0)
    {
      var target := properties[p];
      ghost var incoming := Incoming(host, target, merged, srcs, applyDefaults);
      var value := FindAlias(target.aliases, merged);
      if value.None? {
        if applyDefaults {
          var shares := Intersects(target.storage, srcs);
          if shares {
            assert incoming == Some(target.default);
            Set(p, target.default);
            return;
          }
        }
        assert incoming == None;
        assert properties == properties[p := target.(value := target.value)];
      } else {
        var v := ParseEntry(host, value.value, target.tag);
        assert incoming == Some(v);
        Set(p, v);
      }
    }

    /**
      The hashchange handler: re-read the fragment alone with defaults
      applied, so that an option stored in the fragment that the new
      fragment no longer mentions returns to its default.
     */
    method OnHashChange(newFragment: map<string, Entry>)
      requires Valid()
      modifies this
      ensures Valid() && |properties| == |old(properties)|
      ensures forall i :: 0 <= i < |properties| ==>
                properties[i] == old(properties[i]).(value := ReadValue(host, old(properties[i]), newFragment, [Fragment], true))
      ensures forall s :: s in Touched(host, old(properties), newFragment, [Fragment], true) ==> InSync(s)
      ensures forall s :: s !in Touched(host, old(properties), newFragment, [Fragment], true) ==>
                Store(s) == Snapshot(old(cookie), newFragment, s)
    {
      fragment := newFragment;
      ReadOptions(Some([Fragment]), true);
      assert Merged(old(cookie), newFragment, [Fragment]) == newFragment by {
        assert [Fragment][..0] == [];
      }
    }

    /** PageOptions.sources.clearAll: every source is emptied, cookie first. */
    method ClearAll()
      modifies this
      ensures cookie == map[] && fragment == map[] && properties == old(properties)
    {
      cookie := map[];
      fragment := map[];
    }
  }

  /** The alias scan of readOptions: the value under the first alias present. */
  method FindAlias(aliases: seq<string>, merged: map<string, Entry>) returns (value: Option<Entry>)
    ensures value == FirstPresent(aliases, merged)
  {
    value := None;
    var i := 0;
    while i < |aliases|
      invariant 0 <= i <= |aliases|
      invariant FirstPresent(aliases, merged) == FirstPresent(aliases[i..], merged)
    {
      if aliases[i] in merged {
        value := Some(merged[aliases[i]]);
        break;
      }
      assert aliases[i..][1..] == aliases[i + 1..];
      i := i + 1;
    }
  }

  /**
    new PageOptions(cookieName, props): the options are built in order and
    then read from every source; a refused descriptor refuses the whole
    object.
   */
  method Construct(cookieName: string, host: Host, props: seq<(string, Descriptor)>,
                   cookie: map<string, Entry>, fragment: map<string, Entry>)
    returns (r: Result<OptionSet, Error>)
    requires DistinctKeys(props)
    ensures r.Failure? <==> exists i :: 0 <= i < |props| && DescriptorError(props[i].0, props[i].1).Some?
    ensures r.Failure? ==> exists i :: FirstRefused(props, i, r.error)
    ensures r.Success? ==> fresh(r.value) && r.value.Valid() && r.value.cookieName == cookieName && r.value.host == host
    ensures r.Success? ==>
              var declared := DeclareAll(props);
              var merged := Merged(cookie, fragment, Order);
              |r.value.properties| == |props|
              && (forall i :: 0 <= i < |props| ==>
                    r.value.properties[i] == declared[i].(value := ReadValue(host, declared[i], merged, Order, false)))
              && (forall s :: s in Touched(host, declared, merged, Order, false) ==> r.value.InSync(s))
              && (forall s :: s !in Touched(host, declared, merged, Order, false) ==> r.value.Store(s) == Snapshot(cookie, fragment, s))
  {
    var built := BuildProperties(props);
    if built.Failure? {
      return Failure(built.error);
    }
    var o := new OptionSet(cookieName, host, built.value, cookie, fragment);
    o.ReadOptions(None, false);
    return Success(o);
  }
}
