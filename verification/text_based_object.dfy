/** The object record and its decoder: one `<objectN>` element is read by a
    fixed schema into a `TextBasedObject`, or the read raises and no record
    exists. Numbers are read by a caller-supplied `parse`, which stands for
    the platform's float parser; the numeric type `N` is left abstract. */
module TextBasedObjects {
  import opened Wrappers
  import opened Xml
  import opened Utility

  const MeshElementName := "mesh"
  const TextureElementName := "texture"
  const NodeElementName := "node"
  const PositionElementName := "position"
  const RotationElementName := "rotation"
  const ScaleElementName := "scale"
  const LabelName := "name"
  const LabelPath := "path"

  datatype Vector3<N> = Vector3(x: N, y: N, z: N)

  datatype SimpleTransform<N> = SimpleTransform(position: Vector3<N>, rotation: Vector3<N>, scale: Vector3<N>)

  datatype TextBasedObject<N> = TextBasedObject(
    meshName: string,
    meshLink: string,
    textureName: string,
    textureLink: string,
    nodeName: string,
    transform: SimpleTransform<N>)

  /** Reference reading of the schema: follow `path` one first-child lookup
      at a time from `n` and take the inner text of where it ends; none when
      some step finds no child. */
  function PathText(n: XmlNode, path: seq<string>): Option<string>
    decreases |path|
  {
    if |path| == 0 then Some(InnerText(n))
    else
      match FirstChild(Children(n), path[0])
      case None => None
      case Some(c) => PathText(c, path[1..])
  }

  /** The number at the end of `path`, when the text is there and parses. */
  function PathNumber<N>(n: XmlNode, path: seq<string>, parse: string -> Option<N>): Option<N>
  {
    match PathText(n, path)
    case None => None
    case Some(t) => parse(t)
  }

  /** `v` is the vector whose components sit under the child `tag` of `n`. */
  ghost predicate VectorAt<N>(n: XmlNode, tag: string, parse: string -> Option<N>, v: Vector3<N>)
  {
    && PathNumber(n, [tag, "x"], parse) == Some(v.x)
    && PathNumber(n, [tag, "y"], parse) == Some(v.y)
    && PathNumber(n, [tag, "z"], parse) == Some(v.z)
  }

  /** `rec` holds exactly what the schema locates in `n`. */
  ghost predicate Describes<N>(n: XmlNode, parse: string -> Option<N>, rec: TextBasedObject<N>)
  {
    && PathText(n, [MeshElementName, LabelName]) == Some(rec.meshName)
    && PathText(n, [MeshElementName, LabelPath]) == Some(rec.meshLink)
    && PathText(n, [TextureElementName, LabelName]) == Some(rec.textureName)
    && PathText(n, [TextureElementName, LabelPath]) == Some(rec.textureLink)
    && PathText(n, [NodeElementName]) == Some(rec.nodeName)
    && VectorAt(n, PositionElementName, parse, rec.transform.position)
    && VectorAt(n, RotationElementName, parse, rec.transform.rotation)
    && VectorAt(n, ScaleElementName, parse, rec.transform.scale)
  }

  /** The child `tag` of `n` holds `x`, `y`, `z` children, whatever their
      texts. */
  predicate VectorTextsPresent(n: XmlNode, tag: string)
  {
    && PathText(n, [tag, "x"]).Some?
    && PathText(n, [tag, "y"]).Some?
    && PathText(n, [tag, "z"]).Some?
  }

  /** The child `tag` of `n` holds `x`, `y`, `z` children whose texts parse. */
  predicate VectorPresent<N>(n: XmlNode, tag: string, parse: string -> Option<N>)
  {
    && PathNumber(n, [tag, "x"], parse).Some?
    && PathNumber(n, [tag, "y"], parse).Some?
    && PathNumber(n, [tag, "z"], parse).Some?
  }

  /** The five label elements the schema names are there. */
  predicate LabelsPresent(n: XmlNode)
  {
    && PathText(n, [MeshElementName, LabelName]).Some?
    && PathText(n, [MeshElementName, LabelPath]).Some?
    && PathText(n, [TextureElementName, LabelName]).Some?
    && PathText(n, [TextureElementName, LabelPath]).Some?
    && PathText(n, [NodeElementName]).Some?
  }

  /** Every element the schema names is there, parsable or not. */
  predicate TextsPresent(n: XmlNode)
  {
    && LabelsPresent(n)
    && VectorTextsPresent(n, PositionElementName)
    && VectorTextsPresent(n, RotationElementName)
    && VectorTextsPresent(n, ScaleElementName)
  }

  /** Every element the schema names is there and every number parses. */
  predicate SchemaSatisfied<N>(n: XmlNode, parse: string -> Option<N>)
  {
    && LabelsPresent(n)
    && VectorPresent(n, PositionElementName, parse)
    && VectorPresent(n, RotationElementName, parse)
    && VectorPresent(n, ScaleElementName, parse)
  }

  /** `FirstChildElement(parent, name).InnerText`: raises when the parent or
      the child is missing. */
  function LookupText(parent: Option<XmlNode>, name: string): (r: Result<string, Exception>)
    ensures parent.None? ==> r == Failure(NullReference)
    ensures parent.Some? ==> (r.Success? <==> PathText(parent.value, [name]).Some?)
    ensures r.Success? ==> PathText(parent.value, [name]) == Some(r.value)
    ensures r.Failure? ==> r.error == NullReference
  {
    var child :- FirstChildElement(parent, name);
    assert [name][1..] == [];
    match child
    case None => Failure(NullReference)
    case Some(c) => Success(InnerText(c))
  }

  /** `float.Parse` of a looked-up text: a text that does not parse raises a
      format error naming it. */
  function ParseNumber<N>(t: Result<string, Exception>, parse: string -> Option<N>): (r: Result<N, Exception>)
    ensures t.Failure? ==> r == Failure(t.error)
    ensures t.Success? ==> (r.Success? <==> parse(t.value).Some?)
    ensures r.Success? ==> parse(t.value) == Some(r.value)
    ensures t.Success? && r.Failure? ==> r.error == FormatError(t.value)
  {
    var s :- t;
    match parse(s)
    case None => Failure(FormatError(s))
    case Some(v) => Success(v)
  }

  /** Reads the `x`, `y`, `z` children of the child `tag` of `n`, in that
      order. */
  function ReadVector<N>(n: XmlNode, tag: string, parse: string -> Option<N>): (r: Result<Vector3<N>, Exception>)
    ensures r.Success? <==> VectorPresent(n, tag, parse)
    ensures r.Success? ==> VectorAt(n, tag, parse, r.value)
    ensures r.Failure? && r.error.FormatError? ==> parse(r.error.text).None?
    ensures r.Failure? ==> r.error.FormatError? || (r.error.NullReference? && !VectorTextsPresent(n, tag))
    // the components are read in the order x, y, z; the first that is
    // missing or does not parse decides the exception
    ensures PathText(n, [tag, "x"]).None? ==> r == Failure(NullReference)
    ensures PathText(n, [tag, "x"]).Some? && parse(PathText(n, [tag, "x"]).value).None? ==>
      r == Failure(FormatError(PathText(n, [tag, "x"]).value))
    ensures PathNumber(n, [tag, "x"], parse).Some? && PathText(n, [tag, "y"]).None? ==>
      r == Failure(NullReference)
    ensures PathNumber(n, [tag, "x"], parse).Some? && PathText(n, [tag, "y"]).Some? && parse(PathText(n, [tag, "y"]).value).None? ==>
      r == Failure(FormatError(PathText(n, [tag, "y"]).value))
    ensures PathNumber(n, [tag, "x"], parse).Some? && PathNumber(n, [tag, "y"], parse).Some? && PathText(n, [tag, "z"]).None? ==>
      r == Failure(NullReference)
    ensures (PathNumber(n, [tag, "x"], parse).Some? && PathNumber(n, [tag, "y"], parse).Some? &&
             PathText(n, [tag, "z"]).Some? && parse(PathText(n, [tag, "z"]).value).None?) ==>
      r == Failure(FormatError(PathText(n, [tag, "z"]).value))
  {
    var element := FirstChildElement(Some(n), tag).value;
    PathStep(n, tag, "x");
    PathStep(n, tag, "y");
    PathStep(n, tag, "z");
    var x :- ParseNumber(LookupText(element, "x"), parse);
    var y :- ParseNumber(LookupText(element, "y"), parse);
    var z :- ParseNumber(LookupText(element, "z"), parse);
    Success(Vector3(x, y, z))
  }

  /** A two-step path is a first-child lookup followed by a one-step path. */
  lemma PathStep(n: XmlNode, a: string, b: string)
    ensures PathText(n, [a, b]) ==
      match FirstChild(Children(n), a)
      case None => None
      case Some(c) => PathText(c, [b])
  {
    assert [a, b][1..] == [b];
  }

  /** The `TextBasedObject(XmlNode)` constructor: every field is read in
      source order, and the first missing element or unparsable number
      raises, so no partial record is ever produced. */
  function Decode<N>(node: XmlNode, parse: string -> Option<N>): (r: Result<TextBasedObject<N>, Exception>)
    ensures r.Success? <==> SchemaSatisfied(node, parse)
    ensures r.Success? ==> Describes(node, parse, r.value)
    ensures r.Failure? && r.error.FormatError? ==> parse(r.error.text).None?
    ensures r.Failure? ==> r.error.FormatError? || (r.error.NullReference? && !TextsPresent(node))
    // the labels are read first, then position, rotation and scale; the
    // first step that fails decides the exception
    ensures !LabelsPresent(node) ==> r == Failure(NullReference)
    ensures LabelsPresent(node) && ReadVector(node, PositionElementName, parse).Failure? ==>
      r == Failure(ReadVector(node, PositionElementName, parse).error)
    ensures (LabelsPresent(node) && VectorPresent(node, PositionElementName, parse) &&
             ReadVector(node, RotationElementName, parse).Failure?) ==>
      r == Failure(ReadVector(node, RotationElementName, parse).error)
    ensures (LabelsPresent(node) && VectorPresent(node, PositionElementName, parse) &&
             VectorPresent(node, RotationElementName, parse) && ReadVector(node, ScaleElementName, parse).Failure?) ==>
      r == Failure(ReadVector(node, ScaleElementName, parse).error)
  {
    PathStep(node, MeshElementName, LabelName);
    PathStep(node, MeshElementName, LabelPath);
    PathStep(node, TextureElementName, LabelName);
    PathStep(node, TextureElementName, LabelPath);
    var mesh := FirstChildElement(Some(node), MeshElementName).value;
    var meshName :- LookupText(mesh, LabelName);
    var meshLink :- LookupText(mesh, LabelPath);
    var texture := FirstChildElement(Some(node), TextureElementName).value;
    var textureName :- LookupText(texture, LabelName);
    var textureLink :- LookupText(texture, LabelPath);
    var nodeName :- LookupText(Some(node), NodeElementName);
    var position :- ReadVector(node, PositionElementName, parse);
    var rotation :- ReadVector(node, RotationElementName, parse);
    var scale :- ReadVector(node, ScaleElementName, parse);
    Success(TextBasedObject(meshName, meshLink, textureName, textureLink, nodeName,
                            SimpleTransform(position, rotation, scale)))
  }

  /** Writes the vector `v` as the element `tag` with `x`, `y`, `z` children. */
  function EncodeVector<N>(tag: string, v: Vector3<N>, render: N -> string): XmlNode
  {
    Element(tag, [TextElement("x", render(v.x)), TextElement("y", render(v.y)), TextElement("z", render(v.z))])
  }

  /** Writes `rec` in the scene schema as the element `tag`, numbers rendered
      by `render`: the inverse of `Decode`. */
  function Encode<N>(tag: string, rec: TextBasedObject<N>, render: N -> string): XmlNode
  {
    Element(tag, [
      Element(MeshElementName, [TextElement(LabelName, rec.meshName), TextElement(LabelPath, rec.meshLink)]),
      Element(TextureElementName, [TextElement(LabelName, rec.textureName), TextElement(LabelPath, rec.textureLink)]),
      TextElement(NodeElementName, rec.nodeName),
      EncodeVector(PositionElementName, rec.transform.position, render),
      EncodeVector(RotationElementName, rec.transform.rotation, render),
      EncodeVector(ScaleElementName, rec.transform.scale, render)
    ])
  }

  /** Reading back a written vector gives the vector. */
  lemma VectorRoundTrip<N>(n: XmlNode, k: nat, v: Vector3<N>, parse: string -> Option<N>, render: N -> string)
    requires n.Element? && k < |n.children|
    requires n.children[k] == EncodeVector(Name(n.children[k]), v, render)
    requires IsFirstNamed(n.children, Name(n.children[k]), k)
    requires forall u :: parse(render(u)) == Some(u)
    ensures VectorAt(n, Name(n.children[k]), parse, v)
  {
    var tag := Name(n.children[k]);
    var e := n.children[k];
    FirstIsFirst(n.children, tag, k);
    PathStep(n, tag, "x");
    PathStep(n, tag, "y");
    PathStep(n, tag, "z");
    FirstIsFirst(e.children, "x", 0);
    FirstIsFirst(e.children, "y", 1);
    FirstIsFirst(e.children, "z", 2);
    assert ["x"][1..] == [] && ["y"][1..] == [] && ["z"][1..] == [];
  }

  /** Reading back a written name/path pair gives the pair. */
  lemma LinkRoundTrip(n: XmlNode, k: nat, name: string, link: string)
    requires n.Element? && k < |n.children|
    requires n.children[k] == Element(Name(n.children[k]), [TextElement(LabelName, name), TextElement(LabelPath, link)])
    requires IsFirstNamed(n.children, Name(n.children[k]), k)
    ensures PathText(n, [Name(n.children[k]), LabelName]) == Some(name)
    ensures PathText(n, [Name(n.children[k]), LabelPath]) == Some(link)
  {
    var tag := Name(n.children[k]);
    var e := n.children[k];
    FirstIsFirst(n.children, tag, k);
    PathStep(n, tag, LabelName);
    PathStep(n, tag, LabelPath);
    assert IsFirstNamed(e.children, LabelPath, 1);
    FirstIsFirst(e.children, LabelName, 0);
    FirstIsFirst(e.children, LabelPath, 1);
    assert [LabelName][1..] == [] && [LabelPath][1..] == [];
  }

  /** The five labels of an encoded record read back as written. */
  lemma LabelsRoundTrip<N>(tag: string, rec: TextBasedObject<N>, render: N -> string)
    ensures var n := Encode(tag, rec, render);
      && PathText(n, [MeshElementName, LabelName]) == Some(rec.meshName)
      && PathText(n, [MeshElementName, LabelPath]) == Some(rec.meshLink)
      && PathText(n, [TextureElementName, LabelName]) == Some(rec.textureName)
      && PathText(n, [TextureElementName, LabelPath]) == Some(rec.textureLink)
      && PathText(n, [NodeElementName]) == Some(rec.nodeName)
  {
    var n := Encode(tag, rec, render);
    var cs := n.children;
    assert IsFirstNamed(cs, MeshElementName, 0);
    assert IsFirstNamed(cs, TextureElementName, 1);
    assert IsFirstNamed(cs, NodeElementName, 2);
    LinkRoundTrip(n, 0, rec.meshName, rec.meshLink);
    LinkRoundTrip(n, 1, rec.textureName, rec.textureLink);
    FirstIsFirst(cs, NodeElementName, 2);
    assert [NodeElementName][1..] == [];
  }

  /** The three vectors of an encoded record read back as written. */
  lemma TransformRoundTrip<N>(tag: string, rec: TextBasedObject<N>, parse: string -> Option<N>, render: N -> string)
    requires forall u :: parse(render(u)) == Some(u)
    ensures var n := Encode(tag, rec, render);
      && VectorAt(n, PositionElementName, parse, rec.transform.position)
      && VectorAt(n, RotationElementName, parse, rec.transform.rotation)
      && VectorAt(n, ScaleElementName, parse, rec.transform.scale)
  {
    var n := Encode(tag, rec, render);
    var cs := n.children;
    assert IsFirstNamed(cs, PositionElementName, 3);
    assert IsFirstNamed(cs, RotationElementName, 4);
    assert IsFirstNamed(cs, ScaleElementName, 5);
    VectorRoundTrip(n, 3, rec.transform.position, parse, render);
    VectorRoundTrip(n, 4, rec.transform.rotation, parse, render);
    VectorRoundTrip(n, 5, rec.transform.scale, parse, render);
  }

  /** Decoding an encoded record gives the record back, field for field,
      whenever the number parser reads back what the renderer writes. */
  lemma DecodeEncode<N>(tag: string, rec: TextBasedObject<N>, parse: string -> Option<N>, render: N -> string)
    requires forall u :: parse(render(u)) == Some(u)
    ensures Decode(Encode(tag, rec, render), parse) == Success(rec)
  {
    var n := Encode(tag, rec, render);
    LabelsRoundTrip(tag, rec, render);
    TransformRoundTrip(tag, rec, parse, render);
    assert Describes(n, parse, rec);
    var r := Decode(n, parse);
    assert r.Success?;
    assert Describes(n, parse, r.value);
  }
}
