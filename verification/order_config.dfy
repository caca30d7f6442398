/** The parsed `sort` member of `sorting-config.json` and the two lookups
    the explorer performs on it: the rank of a name in an order list
    (`getOrderIndex`) and the walk down nested object entries to the
    configuration of a sub-directory (`getSubConfig`). */
module OrderConfig {
  import opened Wrappers
  import Strings

  /** One element of an order list: a bare name, or an object whose keys are
      directory names and whose values are the order lists of those
      directories. An object may carry several keys. */
  datatype OrderEntry =
    | Name(name: string)
    | Keyed(children: map<string, seq<OrderEntry>>)

  /** The configuration value the provider holds: absent (`null` or
      `undefined`), an order list (the usual JSON array), or a JSON object
      whose members are order lists. */
  datatype Config =
    | NoConfig
    | OrderList(entries: seq<OrderEntry>)
    | Members(fields: map<string, seq<OrderEntry>>)

  // ---------------------------------------------------------------------
  // Rank lookup

  /** An entry ranks `name` when it is that string, or an object that has
      `name` as one of its own keys. */
  predicate RanksName(e: OrderEntry, name: string) {
    match e
    case Name(n) => n == name
    case Keyed(children) => name in children
  }

  /** What a scan over an order list looks for in an entry: `getOrderIndex`
      asks whether it ranks a name (by own keys, or as the source writes
      it), `getSubConfig` whether it opens a path segment. */
  datatype EntryTest =
    | RanksTest(name: string)
    | RanksAsWrittenTest(name: string)
    | OpensTest(part: string)
    | OpensAsWrittenTest(part: string)

  predicate Passes(e: OrderEntry, test: EntryTest) {
    match test
    case RanksTest(name) => RanksName(e, name)
    case RanksAsWrittenTest(name) => RanksNameAsWritten(e, name)
    case OpensTest(part) => OpensSegment(e, part)
    case OpensAsWrittenTest(part) => OpensSegmentAsWritten(e, part)
  }

  /** First position in `entries` whose entry passes `test`, or -1: the one
      scan both loops over an order list perform. */
  function FirstMatch(entries: seq<OrderEntry>, test: EntryTest): (i: int)
    ensures -1 <= i < |entries|
    ensures i == -1 <==> forall j :: 0 <= j < |entries| ==> !Passes(entries[j], test)
    ensures i >= 0 ==> Passes(entries[i], test)
    ensures i >= 0 ==> forall j :: 0 <= j < i ==> !Passes(entries[j], test)
  {
    if |entries| == 0 then -1
    else if Passes(entries[0], test) then 0
    else
      var i := FirstMatch(entries[1..], test);
      if i == -1 then -1 else i + 1
  }

  /** Two tests that agree on every entry find the same first match. */
  lemma {:induction false} FirstMatchAgrees(entries: seq<OrderEntry>, p: EntryTest, q: EntryTest)
    requires forall j :: 0 <= j < |entries| ==> Passes(entries[j], p) == Passes(entries[j], q)
    ensures FirstMatch(entries, p) == FirstMatch(entries, q)
    decreases |entries|
  {
    if |entries| > 0 {
      FirstMatchAgrees(entries[1..], p, q);
    }
  }

  /** `getOrderIndex(name, order)`. Only an order list ranks anything: an
      absent configuration gives -1 at once, and a JSON object has no
      `length`, so its loop runs zero times. */
  function Rank(name: string, order: Config): (i: int)
    ensures !order.OrderList? ==> i == -1
    ensures order.OrderList? ==> -1 <= i < |order.entries|
    ensures order.OrderList? && i >= 0 ==>
      RanksName(order.entries[i], name) && forall j :: 0 <= j < i ==> !RanksName(order.entries[j], name)
    ensures order.OrderList? && i == -1 ==>
      forall j :: 0 <= j < |order.entries| ==> !RanksName(order.entries[j], name)
  {
    match order
    case OrderList(entries) => FirstMatch(entries, RanksTest(name))
    case _ => -1
  }

  /** Names every object created by `JSON.parse` answers through its
      prototype: `obj[k] !== undefined` holds for these even when `k` is
      not one of the object's own keys. */
  const ObjectPrototypeKeys: set<string> := {
    "constructor", "hasOwnProperty", "isPrototypeOf", "propertyIsEnumerable",
    "toLocaleString", "toString", "valueOf", "__proto__",
    "__defineGetter__", "__defineSetter__", "__lookupGetter__", "__lookupSetter__"
  }

  /** The entry test exactly as the source writes it: an object matches
      whenever `order[i][name]` is defined, inherited members included. */
  predicate RanksNameAsWritten(e: OrderEntry, name: string) {
    match e
    case Name(n) => n == name
    case Keyed(children) => name in children || name in ObjectPrototypeKeys
  }

  /** `getOrderIndex` as written, inherited members included. */
  function RankAsWritten(name: string, order: Config): int
  {
    match order
    case OrderList(entries) => FirstMatch(entries, RanksAsWrittenTest(name))
    case _ => -1
  }

  /** The as-written lookup ranks `toString` at the first object entry,
      although no entry names it. */
  lemma InheritedMemberIsRanked()
    ensures RankAsWritten("toString", OrderList([Keyed(map["src" := []])])) == 0
    ensures Rank("toString", OrderList([Keyed(map["src" := []])])) == -1
  {
  }

  /** Away from the prototype's member names the as-written lookup and
      `Rank` agree. */
  lemma RankAgreesOffPrototype(name: string, order: Config)
    requires name !in ObjectPrototypeKeys
    ensures RankAsWritten(name, order) == Rank(name, order)
  {
    if order.OrderList? {
      FirstMatchAgrees(order.entries, RanksAsWrittenTest(name), RanksTest(name));
    }
  }

  // ---------------------------------------------------------------------
  // Nested-config resolution

  /** An entry a path segment can descend into: an object with that own key.
      A bare string with the same name never qualifies. */
  predicate OpensSegment(e: OrderEntry, part: string) {
    e.Keyed? && part in e.children
  }

  /** The entry test exactly as the source writes it: any object answers a
      segment that names an `Object.prototype` member, through its
      prototype. */
  predicate OpensSegmentAsWritten(e: OrderEntry, part: string) {
    e.Keyed? && (part in e.children || part in ObjectPrototypeKeys)
  }

  /** One pass of `getSubConfig`'s inner loop over an order list: the value
      under `part` in the first object entry that has it. */
  function Descend(entries: seq<OrderEntry>, part: string): (r: Option<seq<OrderEntry>>)
    ensures r.None? <==> forall j :: 0 <= j < |entries| ==> !OpensSegment(entries[j], part)
    ensures r.Some? ==>
      exists i :: 0 <= i < |entries| && OpensSegment(entries[i], part)
        && r.value == entries[i].children[part]
        && forall j :: 0 <= j < i ==> !OpensSegment(entries[j], part)
  {
    var i := FirstMatch(entries, OpensTest(part));
    if i == -1 then None else Some(entries[i].children[part])
  }

  /** Outcome of `getSubConfig` as written: a configuration; the member an
      object entry answered through its prototype (a function, or
      `Object.prototype` itself for `__proto__`), which has no array entries
      and no `default` member and so ranks nothing; or the `TypeError`
      thrown by `for (const item of config)` when the current value is not
      an array. */
  datatype Resolution = Resolved(config: Config) | InheritedMember | NotIterable

  /** The segment loop of `getSubConfig` as written. The first object entry
      that answers the segment wins; when it answers through its prototype
      the walk holds a function, and a further segment throws. */
  function ResolveAsWritten(config: Config, parts: seq<string>): Resolution
    decreases |parts|
  {
    if |parts| == 0 then Resolved(config)
    else if !config.OrderList? then NotIterable
    else
      var i := FirstMatch(config.entries, OpensAsWrittenTest(parts[0]));
      if i == -1 then Resolved(NoConfig)
      else if parts[0] in config.entries[i].children then
        ResolveAsWritten(OrderList(config.entries[i].children[parts[0]]), parts[1..])
      else if |parts| == 1 then InheritedMember
      else NotIterable
  }

  /** Segments of a path relative to the workspace root: backslashes become
      slashes, then the path is split on `/`. */
  function Segments(relativePath: string): (parts: seq<string>)
    ensures |parts| >= 1
    ensures forall k :: 0 <= k < |parts| ==> Strings.Slash !in parts[k] && Strings.Backslash !in parts[k]
    ensures Strings.Join(parts, Strings.Slash) == Strings.NormalizeSeparators(relativePath)
  {
    SegmentsFreeOfBackslash(Strings.NormalizeSeparators(relativePath));
    Strings.JoinSplit(Strings.NormalizeSeparators(relativePath), Strings.Slash);
    Strings.Split(Strings.NormalizeSeparators(relativePath), Strings.Slash)
  }

  lemma SegmentsFreeOfBackslash(p: string)
    requires forall i :: 0 <= i < |p| ==> p[i] != Strings.Backslash
    ensures forall k :: 0 <= k < |Strings.Split(p, Strings.Slash)| ==>
      Strings.Backslash !in Strings.Split(p, Strings.Slash)[k]
  {
    Strings.SplitKeepsChars(p, Strings.Slash, Strings.Backslash);
  }

  /** `getSubConfig(dirPath)` as written, given the path of `dirPath`
      relative to the workspace root. */
  function SubConfigAsWritten(root: Config, relativePath: string): Resolution
  {
    ResolveAsWritten(root, Segments(relativePath))
  }

  /** Without a configuration file (or with an object-shaped one) the
      as-written lookup throws for every directory below the root. */
  lemma SubConfigAsWrittenThrowsWithoutList(root: Config, relativePath: string)
    requires !root.OrderList?
    ensures SubConfigAsWritten(root, relativePath) == NotIterable
  {
  }

  /** One segment of the corrected walk: only an order list can be
      descended into; a miss, or anything else, gives no configuration. */
  function Step(config: Config, part: string): (r: Config)
    ensures r.NoConfig? || r.OrderList?
    ensures r.OrderList? <==> config.OrderList? && exists j :: 0 <= j < |config.entries| && OpensSegment(config.entries[j], part)
    ensures r.OrderList? ==> config.OrderList? && Descend(config.entries, part) == Some(r.entries)
  {
    if !config.OrderList? then NoConfig
    else
      match Descend(config.entries, part)
      case None => NoConfig
      case Some(sub) => OrderList(sub)
  }

  /** The corrected segment walk: a configuration that is not an order list
      resolves to no configuration instead of throwing. */
  function Resolve(config: Config, parts: seq<string>): (r: Config)
    ensures |parts| == 0 ==> r == config
    ensures |parts| > 0 ==> r.NoConfig? || r.OrderList?
    ensures |parts| > 0 && !config.OrderList? ==> r.NoConfig?
    decreases |parts|
  {
    if |parts| == 0 then config
    else
      Resolve(Step(config, parts[0]), parts[1..])
  }

  /** The corrected `getSubConfig`: the configuration for a directory given
      its path relative to the workspace root. */
  function ResolveSubConfig(root: Config, relativePath: string): (r: Config)
    ensures r.NoConfig? || r.OrderList?
    ensures !root.OrderList? ==> r.NoConfig?
  {
    Resolve(root, Segments(relativePath))
  }

  /** Wherever the as-written lookup does not throw, and no segment names
      an `Object.prototype` member, the corrected one returns the same
      configuration. */
  lemma {:induction false} ResolveAgreesWithAsWritten(config: Config, parts: seq<string>)
    requires config.OrderList? || |parts| == 0
    requires forall k :: 0 <= k < |parts| ==> parts[k] !in ObjectPrototypeKeys
    ensures ResolveAsWritten(config, parts) == Resolved(Resolve(config, parts))
    decreases |parts|
  {
    if |parts| > 0 {
      FirstMatchAgrees(config.entries, OpensAsWrittenTest(parts[0]), OpensTest(parts[0]));
      var next := Step(config, parts[0]);
      if next.NoConfig? {
        NoConfigStaysNone(parts[1..]);
      } else {
        ResolveAgreesWithAsWritten(next, parts[1..]);
      }
    }
  }

  /** A directory named after an `Object.prototype` member: the source
      stops at the first object entry, which answers through its prototype.
      Below such a directory it throws where the corrected walk finds no
      configuration; at it, it ranks nothing where the corrected walk finds
      the entry that really has the key. */
  lemma InheritedSegmentMisleads()
    ensures ResolveAsWritten(OrderList([Keyed(map["src" := []])]), ["constructor", "x"]) == NotIterable
    ensures Resolve(OrderList([Keyed(map["src" := []])]), ["constructor", "x"]) == NoConfig
    ensures ResolveAsWritten(OrderList([Keyed(map["src" := []]), Keyed(map["constructor" := [Name("b"), Name("a")]])]),
                             ["constructor"]) == InheritedMember
    ensures Resolve(OrderList([Keyed(map["src" := []]), Keyed(map["constructor" := [Name("b"), Name("a")]])]),
                    ["constructor"]) == OrderList([Name("b"), Name("a")])
  {
    var e0 := Keyed(map["src" := []]);
    var e1 := Keyed(map["constructor" := [Name("b"), Name("a")]]);
    assert Passes(e0, OpensAsWrittenTest("constructor"));
    assert !OpensSegment(e0, "constructor") && OpensSegment(e1, "constructor");
    assert Descend([e0], "constructor") == None;
    assert !Passes(e0, OpensTest("constructor")) && Passes(e1, OpensTest("constructor"));
    assert FirstMatch([e0, e1], OpensTest("constructor")) == 1;
    assert Descend([e0, e1], "constructor") == Some([Name("b"), Name("a")]);
  }

  /** Once a segment misses, the rest of the path cannot recover: the
      result is no configuration, whatever follows. */
  lemma {:induction false} NoConfigStaysNone(parts: seq<string>)
    ensures Resolve(NoConfig, parts) == NoConfig
    decreases |parts|
  {
    if |parts| > 0 {
      NoConfigStaysNone(parts[1..]);
    }
  }

  /** Resolution composes segment by segment: resolving `p + [s]` is one
      more step from the resolution of `p`. */
  lemma {:induction false} ResolveSnoc(config: Config, p: seq<string>, s: string)
    ensures Resolve(config, p + [s]) == Step(Resolve(config, p), s)
    decreases |p|
  {
    if |p| > 0 {
      assert (p + [s])[0] == p[0];
      assert (p + [s])[1..] == p[1..] + [s];
      ResolveSnoc(Step(config, p[0]), p[1..], s);
    }
  }

  /** The composition law for the source's own loop, under the condition
      that it does not throw: the root is an order list and no segment names
      an `Object.prototype` member. */
  lemma ResolveAsWrittenSnoc(root: Config, p: seq<string>, s: string)
    requires root.OrderList?
    requires forall k :: 0 <= k < |p| ==> p[k] !in ObjectPrototypeKeys
    requires s !in ObjectPrototypeKeys
    ensures ResolveAsWritten(root, p + [s]) == Resolved(Step(Resolve(root, p), s))
  {
    ResolveAgreesWithAsWritten(root, p + [s]);
    ResolveSnoc(root, p, s);
  }

  /** A path written with backslashes resolves like the same path written
      with slashes. */
  lemma ResolveSubConfigEitherSeparator(root: Config, parts: seq<string>)
    requires |parts| >= 1
    requires forall k :: 0 <= k < |parts| ==> Strings.Slash !in parts[k] && Strings.Backslash !in parts[k]
    ensures ResolveSubConfig(root, Strings.Join(parts, Strings.Slash)) == Resolve(root, parts)
    ensures ResolveSubConfig(root, Strings.Join(parts, Strings.Backslash)) == Resolve(root, parts)
  {
    NormalizeJoin(parts, Strings.Slash);
    NormalizeJoin(parts, Strings.Backslash);
    Strings.SplitJoin(parts, Strings.Slash);
  }

  lemma {:induction false} NormalizeJoin(parts: seq<string>, sep: char)
    requires sep == Strings.Slash || sep == Strings.Backslash
    requires forall k :: 0 <= k < |parts| ==> Strings.Backslash !in parts[k]
    ensures Strings.NormalizeSeparators(Strings.Join(parts, sep)) == Strings.Join(parts, Strings.Slash)
    decreases |parts|
  {
    if |parts| == 1 {
      NormalizeNoBackslash(parts[0]);
    } else if |parts| > 1 {
      NormalizeJoin(parts[1..], sep);
      NormalizeNoBackslash(parts[0]);
      var rest := Strings.Join(parts[1..], sep);
      NormalizeConcat(parts[0] + [sep], rest);
      NormalizeConcat(parts[0], [sep]);
    }
  }

  lemma NormalizeConcat(a: string, b: string)
    ensures Strings.NormalizeSeparators(a + b) == Strings.NormalizeSeparators(a) + Strings.NormalizeSeparators(b)
  {
    var n := Strings.NormalizeSeparators(a + b);
    var m := Strings.NormalizeSeparators(a) + Strings.NormalizeSeparators(b);
    assert |n| == |m|;
    forall i | 0 <= i < |n|
      ensures n[i] == m[i]
    {
      if i >= |a| {
        assert (a + b)[i] == b[i - |a|];
      }
    }
  }

  lemma NormalizeNoBackslash(s: string)
    requires Strings.Backslash !in s
    ensures Strings.NormalizeSeparators(s) == s
  {
    var n := Strings.NormalizeSeparators(s);
    assert forall i :: 0 <= i < |s| ==> n[i] == s[i];
  }
}
