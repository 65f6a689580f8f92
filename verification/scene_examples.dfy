/** Worked scene files: a document with `object0`, `object1` and `object3`
    but no `object2`, and a document with a single object. */
module SceneExamples {
  import opened Wrappers
  import opened Xml
  import opened Utility
  import opened TextBasedObjects
  import opened SceneImporters

  /** Probe names are the literal element names of a scene file. */
  lemma ProbeNameLiterals()
    ensures ProbeName(0) == "object0" && ProbeName(1) == "object1"
    ensures ProbeName(2) == "object2" && ProbeName(3) == "object3"
  {
  }

  /** The scene element of a document whose only top-level node is it. */
  function SceneDocument(objects: seq<XmlNode>): XmlDocument
  {
    Document([Element(SceneElementName, objects)])
  }

  /** Enumeration over abstract objects: `object0` and `object1` decode and
      `object2` is missing. */
  lemma TwoThenGap<R>(scene: XmlNode, decode: XmlNode -> Result<R, Exception>, v0: R, v1: R)
    requires FirstChild(Children(scene), ProbeName(0)).Some?
    requires FirstChild(Children(scene), ProbeName(1)).Some?
    requires decode(FirstChild(Children(scene), ProbeName(0)).value) == Success(v0)
    requires decode(FirstChild(Children(scene), ProbeName(1)).value) == Success(v1)
    requires !HasNamed(Children(scene), ProbeName(2))
    ensures EnumerateFrom(Some(scene), decode, 0) == Success([v0, v1])
  {
    var cs := Children(scene);
    var x0 := FirstChild(cs, ProbeName(0)).value;
    var x1 := FirstChild(cs, ProbeName(1)).value;
    assert FirstChildElement(Some(scene), ProbeName(0)) == Success(Some(x0));
    assert FirstChildElement(Some(scene), ProbeName(1)) == Success(Some(x1));
    assert FirstChildElement(Some(scene), ProbeName(2)) == Success(None);
    assert PrefixPresent(cs, 0);
    PrefixPresentStep(cs, 0);
    PrefixPresentStep(cs, 1);
    assert EnumerateFrom(Some(scene), decode, 2) == Success([]);
    assert [v1] + [] == [v1];
    assert EnumerateFrom(Some(scene), decode, 1) == Success([v1]);
    assert [v0] + [v1] == [v0, v1];
  }

  /** Enumeration over abstract objects: `object0` decodes and `object1` is
      missing. */
  lemma OneThenGap<R>(scene: XmlNode, decode: XmlNode -> Result<R, Exception>, v0: R)
    requires FirstChild(Children(scene), ProbeName(0)).Some?
    requires decode(FirstChild(Children(scene), ProbeName(0)).value) == Success(v0)
    requires !HasNamed(Children(scene), ProbeName(1))
    ensures EnumerateFrom(Some(scene), decode, 0) == Success([v0])
  {
    var cs := Children(scene);
    var x0 := FirstChild(cs, ProbeName(0)).value;
    assert FirstChildElement(Some(scene), ProbeName(0)) == Success(Some(x0));
    assert FirstChildElement(Some(scene), ProbeName(1)) == Success(None);
    assert EnumerateFrom(Some(scene), decode, 1) == Success([]);
    assert [v0] + [] == [v0];
  }

  /** The objects of the gap example are found where they were written. */
  lemma GapLayout(cs: seq<XmlNode>)
    requires |cs| == 3
    requires Name(cs[0]) == ProbeName(0) && Name(cs[1]) == ProbeName(1) && Name(cs[2]) == ProbeName(3)
    ensures FirstChild(cs, ProbeName(0)) == Some(cs[0])
    ensures FirstChild(cs, ProbeName(1)) == Some(cs[1])
    ensures !HasNamed(cs, ProbeName(2))
  {
    ProbeNameShape(0);
    ProbeNameShape(1);
    ProbeNameShape(2);
    ProbeNameShape(3);
    assert IsFirstNamed(cs, ProbeName(0), 0);
    assert IsFirstNamed(cs, ProbeName(1), 1);
    FirstIsFirst(cs, ProbeName(0), 0);
    FirstIsFirst(cs, ProbeName(1), 1);
  }

  /** The object of the single-object example is found where it was
      written. */
  lemma SingleLayout(cs: seq<XmlNode>)
    requires |cs| == 1 && Name(cs[0]) == ProbeName(0)
    ensures FirstChild(cs, ProbeName(0)) == Some(cs[0])
    ensures !HasNamed(cs, ProbeName(1))
  {
    ProbeNameShape(0);
    ProbeNameShape(1);
    assert IsFirstNamed(cs, ProbeName(0), 0);
    FirstIsFirst(cs, ProbeName(0), 0);
  }

  /** The importer's per-object decoder reads back an encoded record. */
  lemma ObjectDecoderReadsBack<N>(tag: string, rec: TextBasedObject<N>, parse: string -> Option<N>, render: N -> string)
    requires forall u :: parse(render(u)) == Some(u)
    ensures ObjectDecoder(parse)(Encode(tag, rec, render)) == Success(rec)
  {
    DecodeEncode(tag, rec, parse, render);
  }

  /** The single scene element of a one-element document is the scene. */
  lemma SceneOfSceneDocument(objects: seq<XmlNode>)
    ensures DocumentElement(SceneDocument(objects)).Some?
    ensures SelectScene(SceneDocument(objects).nodes) == Some(Element(SceneElementName, objects))
  {
    assert SceneDocument(objects).nodes[..0] == [];
  }

  /** A gap at `object2` ends the import after two records; `object3` is
      never read: it is empty, so decoding it would raise, yet the import
      succeeds. */
  lemma GapExample<N>(r0: TextBasedObject<N>, r1: TextBasedObject<N>,
                      parse: string -> Option<N>, render: N -> string)
    requires forall u :: parse(render(u)) == Some(u)
    ensures ObjectDecoder(parse)(Element(ProbeName(3), [])) == Failure(NullReference)
    ensures Import(SceneDocument([Encode(ProbeName(0), r0, render), Encode(ProbeName(1), r1, render),
                                  Element(ProbeName(3), [])]), parse)
            == Success([r0, r1])
  {
    var cs := [Encode(ProbeName(0), r0, render), Encode(ProbeName(1), r1, render), Element(ProbeName(3), [])];
    SceneOfSceneDocument(cs);
    GapLayout(cs);
    ObjectDecoderReadsBack(ProbeName(0), r0, parse, render);
    ObjectDecoderReadsBack(ProbeName(1), r1, parse, render);
    TwoThenGap(Element(SceneElementName, cs), ObjectDecoder(parse), r0, r1);
  }

  /** A scene with the single object `object0` imports as that one record. */
  lemma SingleObjectExample<N>(rec: TextBasedObject<N>, parse: string -> Option<N>, render: N -> string)
    requires forall u :: parse(render(u)) == Some(u)
    ensures NewSceneImporter(Loaded(SceneDocument([Encode(ProbeName(0), rec, render)])), parse)
            == Success(SceneImporter([rec]))
  {
    var cs := [Encode(ProbeName(0), rec, render)];
    SceneOfSceneDocument(cs);
    SingleLayout(cs);
    ObjectDecoderReadsBack(ProbeName(0), rec, parse, render);
    OneThenGap(Element(SceneElementName, cs), ObjectDecoder(parse), rec);
    assert Import(SceneDocument(cs), parse) == Success([rec]);
  }
}
