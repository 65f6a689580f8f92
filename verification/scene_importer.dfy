/** The scene importer: the load-error gate, the selection of the scene
    element, and the enumeration of `object0`, `object1`, ... under it until
    the first missing index. */
module SceneImporters {
  import opened Wrappers
  import opened Xml
  import opened Decimal
  import opened Utility
  import opened TextBasedObjects

  const SceneElementName := "scene"
  const ObjectElementName := "object"

  /** The name probed for index `i`: `object` followed by the counter's
      decimal digits. */
  function ProbeName(i: nat): (s: string)
    ensures |s| > |ObjectElementName| && s[..|ObjectElementName|] == ObjectElementName
    ensures AllDigits(s[|ObjectElementName|..])
  {
    ObjectElementName + NatToString(i)
  }

  /** The probed name is `object` followed by the decimal digits of `i`,
      unpadded. */
  lemma ProbeNameShape(i: nat)
    ensures var s := ProbeName(i);
      && |s| > |ObjectElementName| && s[..|ObjectElementName|] == ObjectElementName
      && AllDigits(s[|ObjectElementName|..]) && DecimalValue(s[|ObjectElementName|..]) == i
      && (s[|ObjectElementName|] == '0' ==> i == 0 && |s| == |ObjectElementName| + 1)
  {
    var s := ProbeName(i);
    assert s[|ObjectElementName|..] == NatToString(i);
    DecimalRoundTrip(i);
  }

  /** Distinct indices probe distinct names. */
  lemma ProbeNameInjective(i: nat, j: nat)
    requires ProbeName(i) == ProbeName(j)
    ensures i == j
  {
    ProbeNameShape(i);
    ProbeNameShape(j);
  }

  /** The names probed for the indices below `k`. */
  ghost function ProbeSet(k: nat): set<string>
  {
    if k == 0 then {} else ProbeSet(k - 1) + {ProbeName(k - 1)}
  }

  lemma {:induction false} ProbeSetMembers(k: nat, j: nat)
    requires j < k
    ensures ProbeName(j) in ProbeSet(k)
  {
    if j < k - 1 {
      ProbeSetMembers(k - 1, j);
    }
  }

  /** The `k` probed names are pairwise distinct, so there are `k` of them. */
  lemma {:induction false} ProbeSetSize(k: nat)
    ensures |ProbeSet(k)| == k
  {
    if k > 0 {
      ProbeSetSize(k - 1);
      if ProbeName(k - 1) in ProbeSet(k - 1) {
        var j := ProbeSetIndex(k - 1, ProbeName(k - 1));
        ProbeNameInjective(j, k - 1);
        assert false;
      }
    }
  }

  lemma {:induction false} ProbeSetIndex(k: nat, s: string) returns (j: nat)
    requires s in ProbeSet(k)
    ensures j < k && ProbeName(j) == s
  {
    if s == ProbeName(k - 1) {
      j := k - 1;
    } else {
      j := ProbeSetIndex(k - 1, s);
    }
  }

  /** The names of the nodes in `cs`. */
  ghost function NameSet(cs: seq<XmlNode>): set<string>
  {
    if |cs| == 0 then {} else {Name(cs[0])} + NameSet(cs[1..])
  }

  lemma {:induction false} NameSetSize(cs: seq<XmlNode>)
    ensures |NameSet(cs)| <= |cs|
  {
    if |cs| > 0 {
      NameSetSize(cs[1..]);
    }
  }

  lemma {:induction false} NameSetMembers(cs: seq<XmlNode>, k: nat)
    requires k < |cs|
    ensures Name(cs[k]) in NameSet(cs)
  {
    if k > 0 {
      NameSetMembers(cs[1..], k - 1);
    }
  }

  /** `object0` ... `object<k-1>` are all children in `cs`. */
  predicate PrefixPresent(cs: seq<XmlNode>, k: nat)
  {
    forall j :: 0 <= j < k ==> HasNamed(cs, ProbeName(j))
  }

  /** The run of present objects grows by one when the next one is there. */
  lemma PrefixPresentStep(cs: seq<XmlNode>, k: nat)
    requires PrefixPresent(cs, k) && HasNamed(cs, ProbeName(k))
    ensures PrefixPresent(cs, k + 1)
  {
  }

  /** The enumeration bound: a contiguous run of `k` object names among the
      children needs at least `k` children. */
  lemma PrefixBound(cs: seq<XmlNode>, k: nat)
    requires PrefixPresent(cs, k)
    ensures k <= |cs|
  {
    forall s | s in ProbeSet(k)
      ensures s in NameSet(cs)
    {
      var j := ProbeSetIndex(k, s);
      assert HasNamed(cs, ProbeName(j));
      var m :| 0 <= m < |cs| && Name(cs[m]) == ProbeName(j);
      NameSetMembers(cs, m);
    }
    ProbeSetSize(k);
    NameSetSize(cs);
    SubsetSize(ProbeSet(k), NameSet(cs));
  }

  lemma SubsetSize<T>(a: set<T>, b: set<T>)
    requires a <= b
    ensures |a| <= |b|
  {
    assert b == a + (b - a);
  }

  /** The child probed for index `j`. */
  ghost function ObjectAt(cs: seq<XmlNode>, j: nat): XmlNode
    requires HasNamed(cs, ProbeName(j))
  {
    FirstChild(cs, ProbeName(j)).value
  }

  /** `recs` is what enumeration from index `i` collects from `cs` when each
      object is read by `decode`: the objects from `i` on are present up to
      the first missing index `i + |recs|`, and each record is the decode of
      its object, in index order. */
  ghost predicate EnumeratedFrom<R>(cs: seq<XmlNode>, decode: XmlNode -> Result<R, Exception>, i: nat, recs: seq<R>)
  {
    && PrefixPresent(cs, i + |recs|)
    && !HasNamed(cs, ProbeName(i + |recs|))
    && AllDecode(cs, decode, i, recs)
  }

  /** Record `j` of `recs` is the decode of `object<i + j>`. */
  ghost predicate AllDecode<R>(cs: seq<XmlNode>, decode: XmlNode -> Result<R, Exception>, i: nat, recs: seq<R>)
  {
    forall j :: 0 <= j < |recs| ==> DecodesAt(cs, decode, i + j, recs[j])
  }

  /** `object<j>` is present and decodes to `rec`. */
  ghost predicate DecodesAt<R>(cs: seq<XmlNode>, decode: XmlNode -> Result<R, Exception>, j: nat, rec: R)
  {
    HasNamed(cs, ProbeName(j)) && decode(ObjectAt(cs, j)) == Success(rec)
  }

  /** Object `j` lies within the contiguous run and does not decode. */
  ghost predicate DecodeFailsAt<R>(cs: seq<XmlNode>, decode: XmlNode -> Result<R, Exception>, j: nat)
  {
    PrefixPresent(cs, j + 1) && decode(ObjectAt(cs, j)).Failure?
  }

  /** `object<m>` is present and decodes. */
  ghost predicate DecodeSucceedsAt<R>(cs: seq<XmlNode>, decode: XmlNode -> Result<R, Exception>, m: nat)
  {
    HasNamed(cs, ProbeName(m)) && decode(ObjectAt(cs, m)).Success?
  }

  /** `object<j>` is the first object from index `i` on that does not decode,
      and it raises `e`: every object from `i` up to `j` decodes. */
  ghost predicate FirstFailureAt<R>(cs: seq<XmlNode>, decode: XmlNode -> Result<R, Exception>, i: nat, j: nat, e: Exception)
  {
    && i <= j
    && DecodeFailsAt(cs, decode, j)
    && decode(ObjectAt(cs, j)) == Failure(e)
    && forall m :: i <= m < j ==> DecodeSucceedsAt(cs, decode, m)
  }

  /** The do-while loop of `Import` from index `i`: probe `object<i>` under
      the scene node, decode it, keep the record and go on with `i + 1`, or
      stop at the first missing index. A missing scene node is dereferenced
      by the first probe and raises; a failing decode raises out of the loop.
      The termination measure is the number of children not yet matched. */
  function EnumerateFrom<R>(scene: Option<XmlNode>, decode: XmlNode -> Result<R, Exception>, i: nat): (r: Result<seq<R>, Exception>)
    requires scene.Some? ==> PrefixPresent(Children(scene.value), i)
    ensures scene.None? ==> r == Failure(NullReference)
    ensures scene.Some? && r.Success? ==> EnumeratedFrom(Children(scene.value), decode, i, r.value)
    ensures scene.Some? && r.Success? ==> i + |r.value| <= |Children(scene.value)|
    ensures scene.Some? && r.Failure? ==> exists j :: FirstFailureAt(Children(scene.value), decode, i, j, r.error)
    decreases if scene.Some? then |Children(scene.value)| - i else 0
  {
    var probe :- FirstChildElement(scene, ProbeName(i));
    var cs := Children(scene.value);
    match probe
    case None =>
      EnumerateMiss(cs, decode, i);
      Success([])
    case Some(obj) =>
      EnumerateProbeHit(cs, i, obj);
      match decode(obj)
      case Failure(e) =>
        assert FirstFailureAt(cs, decode, i, i, e);
        Failure(e)
      case Success(rec) =>
        var rest := EnumerateFrom(scene, decode, i + 1);
        if rest.Failure? then
          FirstFailureExtends(cs, decode, i, i + 1, rest.error);
          Failure(rest.error)
        else
          EnumerateHit(cs, decode, i, rec, rest.value);
          Success([rec] + rest.value)
  }

  /** An object that decodes, followed by a first failure from the next
      index, leaves that failure the first one from its own index. */
  lemma FirstFailureExtends<R>(cs: seq<XmlNode>, decode: XmlNode -> Result<R, Exception>, i: nat, next: nat, e: Exception)
    requires next == i + 1 && DecodeSucceedsAt(cs, decode, i)
    requires exists j :: FirstFailureAt(cs, decode, next, j, e)
    ensures exists j :: FirstFailureAt(cs, decode, i, j, e)
  {
    var j :| FirstFailureAt(cs, decode, next, j, e);
    forall m | i <= m < j
      ensures DecodeSucceedsAt(cs, decode, m)
    {
      if m != i {
        assert next <= m;
      }
    }
    assert FirstFailureAt(cs, decode, i, j, e);
  }

  /** A missing `object<i>` ends the enumeration with nothing more. */
  lemma EnumerateMiss<R>(cs: seq<XmlNode>, decode: XmlNode -> Result<R, Exception>, i: nat)
    requires PrefixPresent(cs, i) && !HasNamed(cs, ProbeName(i))
    ensures EnumeratedFrom(cs, decode, i, []) && i <= |cs|
  {
    PrefixBound(cs, i);
  }

  /** A found `object<i>` extends the contiguous run, which the children
      bound, and is the child `ObjectAt` names. */
  lemma EnumerateProbeHit(cs: seq<XmlNode>, i: nat, obj: XmlNode)
    requires PrefixPresent(cs, i) && FirstChild(cs, ProbeName(i)) == Some(obj)
    ensures PrefixPresent(cs, i + 1) && i + 1 <= |cs|
    ensures HasNamed(cs, ProbeName(i)) && ObjectAt(cs, i) == obj
  {
    PrefixBound(cs, i + 1);
  }

  /** A decoded `object<i>` followed by what enumeration from `i + 1`
      collects is what enumeration from `i` collects. */
  lemma EnumerateHit<R>(cs: seq<XmlNode>, decode: XmlNode -> Result<R, Exception>, i: nat, rec: R, rest: seq<R>)
    requires DecodesAt(cs, decode, i, rec)
    requires EnumeratedFrom(cs, decode, i + 1, rest)
    ensures EnumeratedFrom(cs, decode, i, [rec] + rest)
  {
    AllDecodeCons(cs, decode, i, rec, rest);
    assert |[rec] + rest| == 1 + |rest|;
  }

  /** The record-by-record part of `EnumerateHit`. */
  lemma AllDecodeCons<R>(cs: seq<XmlNode>, decode: XmlNode -> Result<R, Exception>, i: nat, rec: R, rest: seq<R>)
    requires DecodesAt(cs, decode, i, rec) && AllDecode(cs, decode, i + 1, rest)
    ensures AllDecode(cs, decode, i, [rec] + rest)
  {
    var recs := [rec] + rest;
    forall j | 0 <= j < |recs|
      ensures DecodesAt(cs, decode, i + j, recs[j])
    {
      if j > 0 {
        assert DecodesAt(cs, decode, (i + 1) + (j - 1), rest[j - 1]);
      }
    }
  }

  /** A missing index lies beyond every contiguous run. */
  lemma GapBound(cs: seq<XmlNode>, m: nat, n: nat)
    requires PrefixPresent(cs, m) && !HasNamed(cs, ProbeName(n))
    ensures m <= n
  {
  }

  /** The enumeration is determined: two runs that both satisfy the
      enumeration contract collect the same records, because the first
      missing index is the least one. */
  lemma EnumerationUnique<R>(cs: seq<XmlNode>, decode: XmlNode -> Result<R, Exception>, i: nat, a: seq<R>, b: seq<R>)
    requires EnumeratedFrom(cs, decode, i, a) && EnumeratedFrom(cs, decode, i, b)
    ensures a == b
  {
    GapBound(cs, i + |a|, i + |b|);
    GapBound(cs, i + |b|, i + |a|);
    assert AllDecode(cs, decode, i, a) && AllDecode(cs, decode, i, b);
    forall j | 0 <= j < |a|
      ensures a[j] == b[j]
    {
      assert DecodesAt(cs, decode, i + j, a[j]);
      assert DecodesAt(cs, decode, i + j, b[j]);
    }
  }

  /** Every object of a contiguous run that a successful enumeration covers
      decodes, so success and failure of `EnumerateFrom` are exclusive. */
  lemma EnumeratedRunDecodes<R>(cs: seq<XmlNode>, decode: XmlNode -> Result<R, Exception>, i: nat, recs: seq<R>, j: nat)
    requires EnumeratedFrom(cs, decode, i, recs) && i <= j && PrefixPresent(cs, j + 1)
    ensures !DecodeFailsAt(cs, decode, j)
  {
    GapBound(cs, j + 1, i + |recs|);
    assert AllDecode(cs, decode, i, recs);
    assert DecodesAt(cs, decode, i + (j - i), recs[j - i]);
  }

  /** Children after the first gap are never visited: appending nodes that
      do not fill the gap at index `k` leaves the enumeration unchanged. */
  lemma {:induction false} ChildrenAfterGapIgnored<R>(tag: string, cs: seq<XmlNode>, extra: seq<XmlNode>, decode: XmlNode -> Result<R, Exception>, i: nat, k: nat)
    requires i <= k && PrefixPresent(cs, k) && !HasNamed(cs, ProbeName(k))
    requires !HasNamed(extra, ProbeName(k))
    ensures PrefixPresent(cs + extra, i)
    ensures EnumerateFrom(Some(Element(tag, cs + extra)), decode, i) == EnumerateFrom(Some(Element(tag, cs)), decode, i)
    decreases k - i
  {
    PrefixPresentAppend(cs, extra, i);
    if i == k {
      AbsentAppend(cs, extra, ProbeName(k));
    } else {
      FirstChildAppend(cs, extra, ProbeName(i));
      PrefixPresentAppend(cs, extra, i + 1);
      ChildrenAfterGapIgnored(tag, cs, extra, decode, i + 1, k);
    }
    EnumerateSameProbe(Element(tag, cs + extra), Element(tag, cs), decode, i);
  }

  /** Objects present among `cs` stay present when nodes are appended. */
  lemma PrefixPresentAppend(cs: seq<XmlNode>, extra: seq<XmlNode>, i: nat)
    requires PrefixPresent(cs, i)
    ensures PrefixPresent(cs + extra, i)
  {
    forall j | 0 <= j < i
      ensures HasNamed(cs + extra, ProbeName(j))
    {
      assert HasNamed(cs, ProbeName(j));
      var m :| 0 <= m < |cs| && Name(cs[m]) == ProbeName(j);
      assert Name((cs + extra)[m]) == ProbeName(j);
    }
  }

  /** Two scene nodes that answer the probe for `object<i>` alike, and
      enumerate alike from `i + 1` when it is found, enumerate alike from
      `i`. */
  lemma EnumerateSameProbe<R>(s1: XmlNode, s2: XmlNode, decode: XmlNode -> Result<R, Exception>, i: nat)
    requires PrefixPresent(Children(s1), i) && PrefixPresent(Children(s2), i)
    requires FirstChild(Children(s1), ProbeName(i)) == FirstChild(Children(s2), ProbeName(i))
    requires FirstChild(Children(s1), ProbeName(i)).Some? ==>
      && PrefixPresent(Children(s1), i + 1) && PrefixPresent(Children(s2), i + 1)
      && EnumerateFrom(Some(s1), decode, i + 1) == EnumerateFrom(Some(s2), decode, i + 1)
    ensures EnumerateFrom(Some(s1), decode, i) == EnumerateFrom(Some(s2), decode, i)
  {
    assert FirstChildElement(Some(s1), ProbeName(i)) == FirstChildElement(Some(s2), ProbeName(i));
  }

  /** The top-level element named `scene`. */
  predicate IsSceneElement(n: XmlNode)
  {
    n.Element? && n.tag == SceneElementName
  }

  /** `nodes[k]` is the last scene element of `nodes`. */
  predicate IsLastScene(nodes: seq<XmlNode>, k: int)
  {
    && 0 <= k < |nodes|
    && IsSceneElement(nodes[k])
    && forall j :: k < j < |nodes| ==> !IsSceneElement(nodes[j])
  }

  /** The scene node: the loop over the `/scene` selection overwrites its
      variable on every match, so the last match wins, and with no match the
      node stays missing. */
  function SelectScene(nodes: seq<XmlNode>): (r: Option<XmlNode>)
    ensures r.None? <==> forall k :: 0 <= k < |nodes| ==> !IsSceneElement(nodes[k])
    ensures r.Some? ==> exists k :: IsLastScene(nodes, k) && nodes[k] == r.value
  {
    if |nodes| == 0 then None
    else if IsSceneElement(nodes[|nodes| - 1]) then
      assert IsLastScene(nodes, |nodes| - 1);
      Some(nodes[|nodes| - 1])
    else
      var r := SelectScene(nodes[..|nodes| - 1]);
      if r.Some? then
        LastSceneExtends(nodes, nodes[..|nodes| - 1], r.value);
        r
      else r
  }

  /** A last scene element of a prefix stays last when a non-scene node
      follows it. */
  lemma LastSceneExtends(nodes: seq<XmlNode>, prefix: seq<XmlNode>, n: XmlNode)
    requires |nodes| > 0 && prefix == nodes[..|nodes| - 1] && !IsSceneElement(nodes[|nodes| - 1])
    requires exists k :: IsLastScene(prefix, k) && prefix[k] == n
    ensures exists k :: IsLastScene(nodes, k) && nodes[k] == n
  {
    var k :| IsLastScene(prefix, k) && prefix[k] == n;
    assert IsLastScene(nodes, k);
  }

  /** The document's root element, if it has one. */
  function DocumentElement(doc: XmlDocument): (r: Option<XmlNode>)
    ensures r.Some? ==> r.value.Element? && r.value in doc.nodes
    ensures r.None? <==> forall k :: 0 <= k < |doc.nodes| ==> !doc.nodes[k].Element?
    decreases |doc.nodes|
  {
    if |doc.nodes| == 0 then None
    else if doc.nodes[0].Element? then Some(doc.nodes[0])
    else DocumentElement(Document(doc.nodes[1..]))
  }

  /** The per-object decoder `Import` applies: the `TextBasedObject`
      constructor with the given number parser. */
  function ObjectDecoder<N>(parse: string -> Option<N>): (d: XmlNode -> Result<TextBasedObject<N>, Exception>)
    ensures forall n :: d(n).Success? <==> SchemaSatisfied(n, parse)
    ensures forall n :: d(n).Success? ==> Describes(n, parse, d(n).value)
  {
    n => Decode(n, parse)
  }

  /** `SceneImporter.Import`: the list is cleared and rebuilt by enumerating
      the objects under the selected scene node from index 0. */
  function Import<N>(doc: XmlDocument, parse: string -> Option<N>): (r: Result<seq<TextBasedObject<N>>, Exception>)
    ensures DocumentElement(doc).None? ==> r == Failure(NullReference)
    ensures SelectScene(doc.nodes).None? ==> r == Failure(NullReference)
    ensures r.Success? ==> SelectScene(doc.nodes).Some?
    ensures r.Success? ==> EnumeratedFrom(Children(SelectScene(doc.nodes).value), ObjectDecoder(parse), 0, r.value)
    ensures r.Success? ==> |r.value| <= |Children(SelectScene(doc.nodes).value)|
    ensures r.Failure? && SelectScene(doc.nodes).Some? && DocumentElement(doc).Some? ==>
      exists j :: FirstFailureAt(Children(SelectScene(doc.nodes).value), ObjectDecoder(parse), 0, j, r.error)
  {
    if DocumentElement(doc).None? then Failure(NullReference)
    else EnumerateFrom(SelectScene(doc.nodes), ObjectDecoder(parse), 0)
  }

  /** What `XmlDocument.Load` produced: a document, an XML exception (the
      text is not well-formed XML), or another exception (the file cannot be
      found, opened or read, or the path is malformed). */
  datatype LoadOutcome =
    | Loaded(doc: XmlDocument)
    | XmlException(message: string)
    | OtherException(message: string)

  /** A constructed importer and the objects it holds. */
  datatype SceneImporter<N> = SceneImporter(importedObjects: seq<TextBasedObject<N>>)

  /** The `SceneImporter` constructor: only an XML exception from the load is
      caught, leaving the list empty without importing; any other load
      exception escapes; after a load the import runs, and an exception it
      raises escapes the constructor. */
  function NewSceneImporter<N>(load: LoadOutcome, parse: string -> Option<N>): (r: Result<SceneImporter<N>, Exception>)
    ensures load.XmlException? ==> r == Success(SceneImporter([]))
    ensures load.Loaded? && r.Success? ==>
      && SelectScene(load.doc.nodes).Some?
      && EnumeratedFrom(Children(SelectScene(load.doc.nodes).value), ObjectDecoder(parse), 0, r.value.importedObjects)
    ensures load.OtherException? ==> r == Failure(LoadError(load.message))
    ensures load.Loaded? && (DocumentElement(load.doc).None? || SelectScene(load.doc.nodes).None?) ==>
      r == Failure(NullReference)
    ensures load.Loaded? && r.Failure? && SelectScene(load.doc.nodes).Some? && DocumentElement(load.doc).Some? ==>
      exists j :: FirstFailureAt(Children(SelectScene(load.doc.nodes).value), ObjectDecoder(parse), 0, j, r.error)
  {
    match load
    case XmlException(_) => Success(SceneImporter([]))
    case OtherException(message) => Failure(LoadError(message))
    case Loaded(doc) =>
      var objects :- Import(doc, parse);
      Success(SceneImporter(objects))
  }
}
