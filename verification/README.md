# Scene importer model

A Dafny model of the scene importer of a Unity project. The importer reads an
XML scene file into a list of `TextBasedObject` records. Each record holds a
mesh name and link, a texture name and link, a node name, and a
`SimpleTransform` with position, rotation and scale vectors. The model covers
these parts of the source:

- `Utility.FirstChildElement`: a linear scan of a node's direct children for
  the first one with a given name. It raises on a missing parent.
- The `TextBasedObject(XmlNode)` constructor: reads fixed child paths in a
  fixed order. The first missing element or unparsable number raises.
- `SceneImporter.Import`: selects the `scene` element, then probes `object0`,
  `object1`, ... and decodes each. It stops at the first missing index.
- The constructor's load gate: an `XmlException` from the load is caught and
  leaves the list empty. Any other load exception, such as a missing file or
  an I/O error, escapes the constructor, and so does an exception from the
  import.

Modules, one per file:

- `Wrappers` (`wrappers.dfy`): `Option` and `Result`.
- `Xml` (`xml.dfy`): a small XML tree with .NET's `Name` and `InnerText`.
- `Decimal` (`decimal.dfy`): decimal rendering of the probe counter and its
  inverse.
- `Utility` (`utility.dfy`): the navigator and the exception kinds.
- `TextBasedObjects` (`text_based_object.dfy`): the records, the decoder and an
  encoder that is its inverse.
- `SceneImporters` (`scene_importer.dfy`): enumeration, scene selection,
  `Import` and the constructor.
- `SceneExamples` (`scene_examples.dfy`): worked scene files.

Numbers are abstract. The decoder takes the number parser as a parameter
`parse: string -> Option<N>`, standing for `float.Parse`, and the record's
number type `N` is a type parameter. A null reference is `None`.
Dereferencing it gives the exception `NullReference`; a text that does not
parse gives `FormatError(text)`.

Three behaviours of the code are easy to misread. The model follows the code
in each:

- `FirstChildElement` dereferences `parent.ChildNodes` at line 13 without a
  null test, so a missing parent raises. The model returns
  `Failure(NullReference)` and does not answer "not found".
- The exception from decoding an object at line 134 is not caught, so the
  whole import aborts and the constructor raises. The exception is that of
  the first object, by index, that fails to decode. `Import` and
  `NewSceneImporter` return that failure.
- The loop at lines 122-123 overwrites `scene_node` on every match, so the
  last match wins. After a successful `Load`, `/scene` matches at most the
  single root element, so "last wins" only matters for `XmlDocument` values
  with several top-level elements. The model's `XmlDocument` allows such
  values and does not enforce a single root element. `SelectScene` returns
  the last top-level `scene` element.

## Model

| member | source | states |
|---|---|---|
| Utility.FirstChildElement | Assets/Resources/Scripts/SceneImporter.cs:10-19 | A missing parent raises a null reference, and only a missing parent does. Otherwise the result is the first direct child with the name, so every earlier child has a different name. The result is none exactly when no direct child has the name. |
| Utility.FirstChild | Assets/Resources/Scripts/SceneImporter.cs:13-18 | The scan returns a child that is the first with the name. It returns none iff the name is absent. |
| Utility.FirstIndexFrom | Assets/Resources/Scripts/SceneImporter.cs:13-17 | From position `i`, the scan stops at the first position holding the name, and every position skipped holds another name. When nothing is found, no position from `i` holds the name. |
| Utility.FirstIsFirst | Assets/Resources/Scripts/SceneImporter.cs:13-18 | Whenever `cs[k]` is the first child with the name, the lookup returns exactly that child. This is the converse of the lookup's own contract. |
| Utility.FirstChildAppend | Assets/Resources/Scripts/SceneImporter.cs:13-18 | Nodes appended after a match do not change what the lookup returns, because the scan returns at its first hit. |
| TextBasedObjects.LookupText | Assets/Resources/Scripts/SceneImporter.cs:99 | Taking `InnerText` of a looked-up child raises a null reference when the parent or the child is missing. Otherwise it yields the text that the one-step schema path locates. |
| TextBasedObjects.ParseNumber | Assets/Resources/Scripts/SceneImporter.cs:102 | Parsing an earlier failure passes that failure on. A text parses iff the parser accepts it, and a rejected text raises a format error that names it. |
| TextBasedObjects.ReadVector | Assets/Resources/Scripts/SceneImporter.cs:101-114 | A vector read succeeds iff the element and its `x`, `y`, `z` children are present with parsable texts. On success the result is the vector the schema locates. The components are read in the order `x`, `y`, `z`, and the first that is missing or does not parse decides the failure. A missing one raises a null reference, and an unparsable one raises a format error naming its text. So when the element and all three children are present, a failure is a format error. |
| TextBasedObjects.Decode | Assets/Resources/Scripts/SceneImporter.cs:93-115 | The object constructor succeeds iff every element the schema names is present and every number parses. On success the record holds exactly what the schema paths locate. The first failing step in source order decides the exception. A missing label raises a null reference. Otherwise the failure is that of the first vector, in the order position, rotation, scale, that cannot be read. So when every element is present, a failure is a format error naming a text the parser rejects. |
| TextBasedObjects.VectorRoundTrip | Assets/Resources/Scripts/SceneImporter.cs:101-104 | A vector written as the first element with its tag reads back as the same vector, given that the parser inverts the renderer. |
| TextBasedObjects.LinkRoundTrip | Assets/Resources/Scripts/SceneImporter.cs:95-98 | A name/path pair written as the first element with its tag reads back as the same pair. |
| TextBasedObjects.LabelsRoundTrip | Assets/Resources/Scripts/SceneImporter.cs:95-99 | The five labels of an encoded record read back through the schema paths as written. |
| TextBasedObjects.TransformRoundTrip | Assets/Resources/Scripts/SceneImporter.cs:100-114 | The position, rotation and scale of an encoded record read back as written. |
| TextBasedObjects.DecodeEncode | Assets/Resources/Scripts/SceneImporter.cs:84-115 | Decoding an encoded record gives back the record, whenever the number parser inverts the renderer. |
| Decimal.NatToString | Assets/Resources/Scripts/SceneImporter.cs:126 | The counter's string form is a non-empty run of decimal digits. A leading zero occurs only for the number zero, as the single digit "0". |
| Decimal.DecimalRoundTrip | Assets/Resources/Scripts/SceneImporter.cs:126 | Reading the counter's decimal digits back gives the counter. |
| Decimal.NatToStringInjective | Assets/Resources/Scripts/SceneImporter.cs:126 | Distinct counters render as distinct strings. |
| SceneImporters.ProbeName | Assets/Resources/Scripts/SceneImporter.cs:125-126 | The `get_current_name` lambda: the probed name starts with `object`, and the rest is a non-empty run of decimal digits. |
| SceneImporters.ProbeNameShape | Assets/Resources/Scripts/SceneImporter.cs:126 | The name probed for index `i` is `object` followed by the unpadded decimal digits of `i`. |
| SceneImporters.ProbeNameInjective | Assets/Resources/Scripts/SceneImporter.cs:126 | Different indices never probe the same element name. |
| SceneImporters.PrefixBound | Assets/Resources/Scripts/SceneImporter.cs:125-137 | A contiguous run of `k` object names needs at least `k` children. So the counter never passes the number of children, and the loop ends. |
| SceneImporters.EnumerateFrom | Assets/Resources/Scripts/SceneImporter.cs:125-137 | With no scene node, the first probe raises a null reference. On success, record `j` is the decode of `object<i+j>`, every object up to the end is present, and the next index is missing. The record count is bounded by the number of children. On failure, the error is the exception raised by the first object from `i` that fails to decode. That object lies inside the contiguous run, and every object before it decodes. |
| SceneImporters.EnumerateMiss | Assets/Resources/Scripts/SceneImporter.cs:130-137 | A missing `object<i>` ends the loop with no further records. |
| SceneImporters.EnumerateProbeHit | Assets/Resources/Scripts/SceneImporter.cs:130-135 | A found `object<i>` extends the contiguous run, and it is the object the run designates at index `i`. |
| SceneImporters.GapBound | Assets/Resources/Scripts/SceneImporter.cs:128-137 | A missing index lies beyond every contiguous run of present objects. |
| SceneImporters.EnumerationUnique | Assets/Resources/Scripts/SceneImporter.cs:128-137 | At most one record list satisfies `EnumeratedFrom` for a child list, so that predicate determines the loop's result. |
| SceneImporters.EnumeratedRunDecodes | Assets/Resources/Scripts/SceneImporter.cs:128-137 | After a successful import, no object in the contiguous run fails to decode. |
| SceneImporters.ChildrenAfterGapIgnored | Assets/Resources/Scripts/SceneImporter.cs:128-137 | Appending children after the first missing index changes nothing, provided none of them is named with that index. Objects past the gap are silently dropped. |
| SceneImporters.SelectScene | Assets/Resources/Scripts/SceneImporter.cs:121-123 | The scene node is missing iff no top-level element is named `scene`. Otherwise it is the last such element, because the loop overwrites its variable on every match. |
| SceneImporters.DocumentElement | Assets/Resources/Scripts/SceneImporter.cs:122 | The root element is a top-level element node of the document. It is missing iff the document has no element node. |
| SceneImporters.ObjectDecoder | Assets/Resources/Scripts/SceneImporter.cs:134 | `new TextBasedObject(object_node)` as the loop applies it: it succeeds on a node iff every element the schema names is present and every number parses, and then the record holds what the schema locates. |
| SceneImporters.FirstFailureExtends | Assets/Resources/Scripts/SceneImporter.cs:132-137 | An object that decodes does not change which later object is the first failure, or the exception raised. |
| SceneImporters.Import | Assets/Resources/Scripts/SceneImporter.cs:118-138 | A document with no root element, or with no scene node, raises a null reference. On success there is a scene node, and the list is the enumeration of its children from `object0`, no longer than the child list. On any other failure, the error is the exception of the first object, counting from `object0`, that fails to decode; every object before it decodes. |
| SceneImporters.NewSceneImporter | Assets/Resources/Scripts/SceneImporter.cs:38-51 | An XML exception from the load is caught and yields an importer with an empty list, without importing. Any other load exception escapes as a load error carrying its message. After a load, a missing root element or scene node raises a null reference. Otherwise the importer holds exactly what the import enumerated, or the constructor raises the exception of the first object that fails to decode. |
| SceneExamples.ProbeNameLiterals | Assets/Resources/Scripts/SceneImporter.cs:126 | Indices 0 to 3 probe the literal names `object0` to `object3`. |
| SceneExamples.TwoThenGap | Assets/Resources/Scripts/SceneImporter.cs:128-137 | With `object0` and `object1` decoding and `object2` missing, the loop yields those two records. |
| SceneExamples.OneThenGap | Assets/Resources/Scripts/SceneImporter.cs:128-137 | With `object0` decoding and `object1` missing, the loop yields that one record. |
| SceneExamples.ObjectDecoderReadsBack | Assets/Resources/Scripts/SceneImporter.cs:134 | The decoder used by the import reads an encoded record back. |
| SceneExamples.GapExample | Assets/Resources/Scripts/SceneImporter.cs:118-138 | A scene holding `object0`, `object1` and an empty `object3` imports as the first two records. Decoding `object3` would raise, yet the import succeeds, so `object3` is never read. |
| SceneExamples.SingleObjectExample | Assets/Resources/Scripts/SceneImporter.cs:38-51 | A loaded scene with the single object `object0` constructs an importer holding exactly that record. |

## Left out

- `Retrieve` (lines 53-76) builds a Unity scene from the records. It is Unity engine calls only (scene creation, resource loading, game objects, static flags), so it is not modelled.
- `XmlDocument.Load` is file I/O and XML parsing. Its outcome is the input `LoadOutcome`: a document tree, an XML exception, or another exception, each exception with its message. The kind of the other exception (file not found, directory not found, I/O, access denied, bad argument) is folded into the single `LoadError`.
- The XPath selection `/scene` is modelled only as choosing among the top-level elements named `scene`. There is no XPath engine.
- `float.Parse` and the `Vector3` float type are not modelled. Numbers are the type parameter `N`, and parsing is the parameter `parse`. Culture-dependent formats, and the difference between a format error and an overflow error, are folded into `FormatError`.
- The `Debug.Log` and `Console.WriteLine` calls are logging only. The message printed for a caught load exception is dropped.
- SceneImporters.EnumerateFrom: the `uint` counter is an unbounded `nat`, so 32-bit wrap-around is not modelled. A wrap needs more than 2^32 contiguous objects, and `PrefixBound` shows the counter never passes the number of children.
- The XML tree has elements, text and comments only. CDATA, whitespace, processing instructions, attributes, namespaces and qualified names are not modelled.
- TextBasedObjects.Decode: the source looks up the mesh and texture elements twice each (lines 95-98). The model looks them up once, since the lookups are pure and give the same node both times.
- The record constructor from six explicit fields (line 92) and the `SimpleTransform` constructor (line 81) are the datatype constructors `TextBasedObject` and `SimpleTransform`.
- `imported_objects.Clear()` (line 120) is covered by `Import` returning a fresh list. The constructor only ever calls it on an empty list.
