/** The element navigator: a linear scan over a node's direct children for the
    first one with a given name, and the exceptions the importer can raise. */
module Utility {
  import opened Wrappers
  import opened Xml

  /** The exceptions that escape the importer: dereferencing a missing node,
      a number that does not parse, and a failure to read the scene file that
      is not an XML error (a missing file or directory, an I/O or access
      error, a bad path). */
  datatype Exception = NullReference | FormatError(text: string) | LoadError(message: string)

  /** `cs[k]` is the first node of `cs` named `name`. */
  predicate IsFirstNamed(cs: seq<XmlNode>, name: string, k: int)
  {
    && 0 <= k < |cs|
    && Name(cs[k]) == name
    && forall j :: 0 <= j < k ==> Name(cs[j]) != name
  }

  /** Some node of `cs` is named `name`. */
  predicate HasNamed(cs: seq<XmlNode>, name: string)
  {
    exists k :: 0 <= k < |cs| && Name(cs[k]) == name
  }

  /** The scan from position `i` onwards: the position of the first node
      named `name` at or after `i`. */
  function FirstIndexFrom(cs: seq<XmlNode>, name: string, i: nat): (r: Option<nat>)
    requires i <= |cs|
    ensures r.Some? ==> i <= r.value < |cs| && Name(cs[r.value]) == name
    ensures r.Some? ==> forall j :: i <= j < r.value ==> Name(cs[j]) != name
    ensures r.None? ==> forall j :: i <= j < |cs| ==> Name(cs[j]) != name
    decreases |cs| - i
  {
    if i == |cs| then None
    else if Name(cs[i]) == name then Some(i)
    else FirstIndexFrom(cs, name, i + 1)
  }

  /** The first direct child named `name`, or none. */
  function FirstChild(cs: seq<XmlNode>, name: string): (r: Option<XmlNode>)
    ensures r.Some? ==> exists k :: IsFirstNamed(cs, name, k) && cs[k] == r.value
    ensures r.None? <==> !HasNamed(cs, name)
  {
    match FirstIndexFrom(cs, name, 0)
    case None => None
    case Some(k) =>
      assert IsFirstNamed(cs, name, k);
      Some(cs[k])
  }

  /** `Utility.FirstChildElement`: a missing parent is dereferenced and
      raises; otherwise the first direct child with the name, or none. */
  function FirstChildElement(parent: Option<XmlNode>, name: string): (r: Result<Option<XmlNode>, Exception>)
    ensures parent.None? <==> r.Failure?
    ensures r.Failure? ==> r.error == NullReference
    ensures r.Success? && r.value.Some? ==>
      exists k :: IsFirstNamed(Children(parent.value), name, k) && Children(parent.value)[k] == r.value.value
    ensures r.Success? ==> (r.value.None? <==> !HasNamed(Children(parent.value), name))
  {
    match parent
    case None => Failure(NullReference)
    case Some(p) => Success(FirstChild(Children(p), name))
  }

  /** There is only one first node with a given name. */
  lemma FirstNamedUnique(cs: seq<XmlNode>, name: string, a: int, b: int)
    requires IsFirstNamed(cs, name, a) && IsFirstNamed(cs, name, b)
    ensures a == b
  {
  }

  /** The lookup finds the first node with the name. */
  lemma FirstIsFirst(cs: seq<XmlNode>, name: string, k: nat)
    requires IsFirstNamed(cs, name, k)
    ensures FirstChild(cs, name) == Some(cs[k])
  {
    var r := FirstChild(cs, name);
    assert HasNamed(cs, name);
    var k' :| IsFirstNamed(cs, name, k') && cs[k'] == r.value;
    FirstNamedUnique(cs, name, k, k');
  }

  /** Nodes appended after a match do not change what the lookup finds. */
  lemma FirstChildAppend(cs: seq<XmlNode>, extra: seq<XmlNode>, name: string)
    requires HasNamed(cs, name)
    ensures FirstChild(cs + extra, name) == FirstChild(cs, name)
  {
    var r := FirstChild(cs, name);
    var k :| IsFirstNamed(cs, name, k) && cs[k] == r.value;
    assert IsFirstNamed(cs + extra, name, k);
    FirstIsFirst(cs + extra, name, k);
  }

  /** A name absent from both parts is absent from their concatenation. */
  lemma AbsentAppend(cs: seq<XmlNode>, extra: seq<XmlNode>, name: string)
    requires !HasNamed(cs, name) && !HasNamed(extra, name)
    ensures !HasNamed(cs + extra, name)
  {
    forall k | 0 <= k < |cs + extra|
      ensures Name((cs + extra)[k]) != name
    {
      if k < |cs| {
        assert (cs + extra)[k] == cs[k];
      } else {
        assert (cs + extra)[k] == extra[k - |cs|];
      }
    }
  }
}
