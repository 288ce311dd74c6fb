/** `inject_into_pe` (src/postject.cpp): the resource becomes an RCDATA
    entry of the PE resource tree.  The tree has the three levels of the
    ".rsrc Section" of the Microsoft PE/COFF specification: type
    directories, name directories under a type, and language data entries
    under a name.  LIEF's parser and builder are oracles. */
module PeInject {
  import opened Basics
  import opened Seqs
  import opened Postject

  /** `RT_RCDATA`, the raw-data resource type. */
  const RT_RCDATA: nat := 10

  /** The id given to a newly created name directory; its high bit marks
      an entry identified by name rather than by number. */
  const NAMED_ENTRY_ID: nat := 0x8000_0000

  /** Third level: a language entry holding the resource bytes. */
  datatype LangNode = LangNode(id: nat, content: Bytes)

  /** Second level: a directory identified by `name` (or by `id` alone). */
  datatype NameNode = NameNode(id: nat, name: string, langs: seq<LangNode>)

  /** First level: a directory for one resource type. */
  datatype TypeNode = TypeNode(id: nat, names: seq<NameNode>)

  /** A parsed PE image, seen only through its resource tree, if it has one. */
  datatype PeBinary = PeBinary(resources: Option<seq<TypeNode>>)

  function TypeWithId(id: nat): TypeNode -> bool {
    (t: TypeNode) => t.id == id
  }

  function NameNamed(name: string): NameNode -> bool {
    (n: NameNode) => n.name == name
  }

  /** The first type directory with id RT_RCDATA (`std::find_if`). */
  function RcdataIndex(types: seq<TypeNode>): (r: Option<nat>)
    ensures r.None? <==> forall i :: 0 <= i < |types| ==> types[i].id != RT_RCDATA
    ensures r.Some? ==> r.value < |types| && types[r.value].id == RT_RCDATA
    ensures r.Some? ==> forall j :: 0 <= j < r.value ==> types[j].id != RT_RCDATA
  {
    var r := FirstIndex(types, TypeWithId(RT_RCDATA));
    assert r.None? ==> forall i :: 0 <= i < |types| ==> !TypeWithId(RT_RCDATA)(types[i]);
    r
  }

  /** The first name directory called `name` (`std::find_if`). */
  function NameIndex(names: seq<NameNode>, name: string): (r: Option<nat>)
    ensures r.None? <==> forall i :: 0 <= i < |names| ==> names[i].name != name
    ensures r.Some? ==> r.value < |names| && names[r.value].name == name
    ensures r.Some? ==> forall j :: 0 <= j < r.value ==> names[j].name != name
  {
    var r := FirstIndex(names, NameNamed(name));
    assert r.None? ==> forall i :: 0 <= i < |names| ==> !NameNamed(name)(names[i]);
    r
  }

  /** Reading the tree back: the language entries of the RCDATA resource
      called `name`, found the way the injector searches for it. */
  function Lookup(types: seq<TypeNode>, name: string): (r: Option<seq<LangNode>>)
    ensures r.Some?
            <==> exists t, n :: && 0 <= t < |types| && types[t].id == RT_RCDATA
                                && (forall j :: 0 <= j < t ==> types[j].id != RT_RCDATA)
                                && 0 <= n < |types[t].names| && types[t].names[n].name == name
    ensures r.Some? ==> exists t, n :: && 0 <= t < |types| && types[t].id == RT_RCDATA
                                       && (forall j :: 0 <= j < t ==> types[j].id != RT_RCDATA)
                                       && 0 <= n < |types[t].names| && types[t].names[n].name == name
                                       && (forall j :: 0 <= j < n ==> types[t].names[j].name != name)
                                       && r.value == types[t].names[n].langs
  {
    match RcdataIndex(types)
    case None => None
    case Some(t) => NameLookup(types[t].names, name)
  }

  /** The language entries of the RCDATA resource `name`; none when absent. */
  function LangsOf(types: seq<TypeNode>, name: string): (r: seq<LangNode>)
    ensures Lookup(types, name).None? ==> r == []
    ensures Lookup(types, name).Some? ==> Lookup(types, name) == Some(r)
  {
    match Lookup(types, name)
    case None => []
    case Some(langs) => langs
  }

  /** The language entries of the name directory called `name`. */
  function NameLookup(names: seq<NameNode>, name: string): Option<seq<LangNode>> {
    match NameIndex(names, name)
    case None => None
    case Some(n) => Some(names[n].langs)
  }

  /** The RCDATA directory, reused or appended, and its index. */
  function WithRcdata(types: seq<TypeNode>): (r: (seq<TypeNode>, nat))
    ensures r.1 < |r.0| && r.0[r.1].id == RT_RCDATA
    ensures RcdataIndex(r.0) == Some(r.1)
    ensures RcdataIndex(types).Some? ==> r == (types, RcdataIndex(types).value)
    ensures RcdataIndex(types).None? ==> r == (types + [TypeNode(RT_RCDATA, [])], |types|)
  {
    match RcdataIndex(types)
    case Some(t) => (types, t)
    case None =>
      var r := (types + [TypeNode(RT_RCDATA, [])], |types|);
      assert forall j :: 0 <= j < |types| ==> r.0[j] == types[j];
      r
  }

  /** The name directory called `name`, reused or appended, and its index. */
  function WithName(names: seq<NameNode>, name: string): (r: (seq<NameNode>, nat))
    ensures r.1 < |r.0| && r.0[r.1].name == name
    ensures NameIndex(r.0, name) == Some(r.1)
    ensures NameIndex(names, name).Some? ==> r == (names, NameIndex(names, name).value)
    ensures NameIndex(names, name).None? ==> r == (names + [NameNode(NAMED_ENTRY_ID, name, [])], |names|)
  {
    match NameIndex(names, name)
    case Some(n) => (names, n)
    case None =>
      var r := (names + [NameNode(NAMED_ENTRY_ID, name, [])], |names|);
      assert forall j :: 0 <= j < |names| ==> r.0[j] == names[j];
      r
  }

  /** The placement of the payload in the tree: find or create the RCDATA
      directory, find or create the name directory; an existing language
      entry blocks the injection unless `overwrite`, in which case the
      first one is deleted; then a fresh language entry (id 0) holding the
      payload is added last. */
  function PlaceResource(types: seq<TypeNode>, name: string, data: Bytes, overwrite: bool)
    : (r: Injection<seq<TypeNode>>)
    ensures !r.Failed?
    ensures r.Exists? <==> !overwrite && |LangsOf(types, name)| > 0
    ensures r.Injected? ==> Lookup(r.binary, name) == Some(DropFirst(LangsOf(types, name)) + [LangNode(0, data)])
  {
    var (types1, t) := WithRcdata(types);
    var rc := types1[t];
    var (names1, n) := WithName(rc.names, name);
    var node := names1[n];
    if |node.langs| > 0 && !overwrite then Exists
    else
      var langs := DropFirst(node.langs) + [LangNode(0, data)];
      var names2 := names1[n := node.(langs := langs)];
      var types2 := types1[t := rc.(names := names2)];
      SameFirstIndex(names1, names2, NameNamed(name));
      SameFirstIndex(types1, types2, TypeWithId(RT_RCDATA));
      Injected(types2)
  }

  /** The policy over LIEF's parse result: a failed parse, or an image
      without a resource tree, is an error. */
  function PePolicy(parsed: Option<PeBinary>, name: string, data: Bytes, overwrite: bool)
    : (r: Injection<PeBinary>)
    ensures r.Failed? <==> parsed.None? || parsed.value.resources.None?
    ensures r.Exists?
            <==> (parsed.Some? && parsed.value.resources.Some? && !overwrite
                  && |LangsOf(parsed.value.resources.value, name)| > 0)
    ensures r.Injected? ==> r.binary.resources.Some?
    ensures r.Injected?
            ==> Lookup(r.binary.resources.value, name)
                == Some(DropFirst(LangsOf(parsed.value.resources.value, name)) + [LangNode(0, data)])
  {
    match parsed
    case None => Failed
    case Some(bin) =>
      match bin.resources
      case None => Failed
      case Some(types) =>
        match PlaceResource(types, name, data, overwrite)
        case Exists => Exists
        case Injected(types') => Injected(PeBinary(Some(types')))
  }

  /** `inject_into_pe`: the policy applied to LIEF's parse of `exe`; the
      output is LIEF's rebuild of the image, made only on success. */
  function InjectIntoPe(exe: Bytes, parse: Bytes -> Option<PeBinary>, build: PeBinary -> Bytes,
                        name: string, data: Bytes, overwrite: bool): (r: InjectResult)
    ensures r.kind == Error <==> parse(exe).None? || parse(exe).value.resources.None?
    ensures r.kind == AlreadyExists
            <==> (parse(exe).Some? && parse(exe).value.resources.Some? && !overwrite
                  && |LangsOf(parse(exe).value.resources.value, name)| > 0)
    ensures r.kind != Success ==> r.output == []
    ensures r.kind == Success ==> r.output == build(PePolicy(parse(exe), name, data, overwrite).binary)
  {
    ToInjectResult(PePolicy(parse(exe), name, data, overwrite), build)
  }

  /** Injection touches nothing but the RCDATA directory: every other type
      directory keeps its place and contents, and at most one directory
      (the RCDATA one) is added. */
  lemma PlaceResourceKeepsOtherTypes(types: seq<TypeNode>, name: string, data: Bytes, overwrite: bool)
    requires PlaceResource(types, name, data, overwrite).Injected?
    ensures var out := PlaceResource(types, name, data, overwrite).binary;
            && |out| == (if RcdataIndex(types).Some? then |types| else |types| + 1)
            && forall j :: 0 <= j < |types| && types[j].id != RT_RCDATA ==> out[j] == types[j]
  {
  }

  /** Injection changes no other resource: every RCDATA name other than the
      injected one looks up exactly as before. */
  lemma PlaceResourceKeepsOtherNames(types: seq<TypeNode>, name: string, other: string, data: Bytes, overwrite: bool)
    requires other != name
    requires overwrite || LangsOf(types, name) == []
    ensures Lookup(PlaceResource(types, name, data, overwrite).binary, other) == Lookup(types, other)
  {
    var (types1, t) := WithRcdata(types);
    var rc := types1[t];
    var (names1, n) := WithName(rc.names, name);
    var node := names1[n];
    var langs := DropFirst(node.langs) + [LangNode(0, data)];
    var names2 := names1[n := node.(langs := langs)];
    var out := types1[t := rc.(names := names2)];
    assert out == PlaceResource(types, name, data, overwrite).binary;
    LookupAfterRefill(types1, t, names2, other);
    NameLevelKeepsOthers(rc.names, name, other, langs);
    if RcdataIndex(types).None? {
      assert rc.names == [];
      assert NameLookup(names1, other) == None;
    }
  }

  /** Replacing the name directories of the first RCDATA directory changes
      a lookup only through those directories. */
  lemma LookupAfterRefill(types: seq<TypeNode>, t: nat, names: seq<NameNode>, other: string)
    requires RcdataIndex(types) == Some(t)
    ensures Lookup(types[t := types[t].(names := names)], other) == NameLookup(names, other)
  {
    SameFirstIndex(types, types[t := types[t].(names := names)], TypeWithId(RT_RCDATA));
  }

  /** At the name level, re-filling the directory called `name` (found or
      created) leaves every other name's entries as they were. */
  lemma NameLevelKeepsOthers(names: seq<NameNode>, name: string, other: string, langs: seq<LangNode>)
    requires other != name
    ensures var (names1, n) := WithName(names, name);
            NameLookup(names1[n := names1[n].(langs := langs)], other) == NameLookup(names, other)
  {
    var (names1, n) := WithName(names, name);
    var names2 := names1[n := names1[n].(langs := langs)];
    SameFirstIndex(names1, names2, NameNamed(other));
    if NameIndex(names, name).None? {
      NameIndexAppend(names, NameNode(NAMED_ENTRY_ID, name, []), other);
    }
  }

  /** Appending a directory with a different name does not change where a
      name is found. */
  lemma NameIndexAppend(names: seq<NameNode>, x: NameNode, other: string)
    requires x.name != other
    ensures NameIndex(names + [x], other) == NameIndex(names, other)
  {
    assert forall i :: 0 <= i < |names| ==> (names + [x])[i] == names[i];
  }

  /** Once injected, the resource is there: injecting it again without
      `overwrite` reports that it already exists. */
  lemma ReinjectionIsBlocked(types: seq<TypeNode>, name: string, data: Bytes, data': Bytes, overwrite: bool)
    requires overwrite || LangsOf(types, name) == []
    ensures PlaceResource(PlaceResource(types, name, data, overwrite).binary, name, data', false).Exists?
  {
  }
}
