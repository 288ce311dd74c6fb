/** The older Python injector (postject.py): format detection and the three
    `inject_into_*` functions.  They work on a file rather than a buffer and
    report failure as `False`; here the file's parsed contents are the input
    and the result is `None` for `False`. */
module PyInjector {
  import opened Basics
  import opened Seqs
  import opened Postject
  import opened ElfInject
  import opened MachOInject
  import opened PeInject

  /** `get_executable_format`: PE is tested first, then ELF, then Mach-O;
      `None` when nothing matches.  The C++ order is different. */
  function PyDetectFormat(exe: Bytes, probes: Probes): (f: Option<ExecutableFormat>)
    ensures f == Some(PE) <==> probes.isPe(exe)
    ensures f == Some(ELF) <==> !probes.isPe(exe) && probes.isElf(exe)
    ensures f == Some(MachO) <==> !probes.isPe(exe) && !probes.isElf(exe) && probes.isMachO(exe)
    ensures f.None? <==> !probes.isPe(exe) && !probes.isElf(exe) && !probes.isMachO(exe)
    ensures f != Some(Unknown)
  {
    if probes.isPe(exe) then Some(PE)
    else if probes.isElf(exe) then Some(ELF)
    else if probes.isMachO(exe) then Some(MachO)
    else None
  }

  /** The two detectors agree on every image that at most one recogniser
      accepts, with `None` standing for `kUnknown`. */
  lemma DetectorsAgreeOnUnambiguousImages(exe: Bytes, probes: Probes)
    requires !(probes.isElf(exe) && probes.isMachO(exe))
    requires !(probes.isElf(exe) && probes.isPe(exe))
    requires !(probes.isMachO(exe) && probes.isPe(exe))
    ensures var f := DetectFormat(exe, probes);
            PyDetectFormat(exe, probes) == if f == Unknown then None else Some(f)
  {
  }

  /** On an image both the ELF and the PE recogniser accept, the C++
      detector answers ELF and the Python one answers PE. */
  lemma DetectorsDisagreeOnElfAndPe(exe: Bytes, probes: Probes)
    requires probes.isElf(exe) && probes.isPe(exe)
    ensures DetectFormat(exe, probes) == ELF
    ensures PyDetectFormat(exe, probes) == Some(PE)
  {
  }

  // ----- ELF -----

  /** `inject_into_elf` as written: the search loop sets `existing_section`
      to the last matching note, but with `overwrite` the function removes
      the loop variable `note`, which after the loop is the last note of
      the image, whatever its name. */
  function PyInjectElfAsWritten(bin: ElfBinary, name: string, data: Bytes, overwrite: bool)
    : (r: Option<ElfBinary>)
    ensures r.None? <==> !overwrite && HasNote(bin.notes, name)
    ensures r.Some? ==> |r.value.notes| > 0 && r.value.notes[|r.value.notes| - 1] == Note(name, data)
    ensures overwrite && HasNote(bin.notes, name) ==> r.value.notes == DropLast(bin.notes) + [Note(name, data)]
    ensures !HasNote(bin.notes, name) ==> r.value.notes == bin.notes + [Note(name, data)]
  {
    var note := Note(name, data);
    if HasNote(bin.notes, name) then
      if !overwrite then None
      else
        assert RemoveAt(bin.notes, |bin.notes| - 1) == DropLast(bin.notes);
        Some(ElfBinary(RemoveAt(bin.notes, |bin.notes| - 1) + [note]))
    else Some(ElfBinary(bin.notes + [note]))
  }

  /** The discrepancy: overwriting "foo" in an image whose notes are
      "foo" then "bar" deletes "bar" and keeps the stale "foo". */
  lemma PyElfOverwriteRemovesWrongNote()
    ensures var bin := ElfBinary([Note("foo", [1]), Note("bar", [2])]);
            var out := PyInjectElfAsWritten(bin, "foo", [3], true);
            && out == Some(ElfBinary([Note("foo", [1]), Note("foo", [3])]))
            && Others(out.value.notes, "foo") == []
            && Others(bin.notes, "foo") == [Note("bar", [2])]
  {
    var bin := ElfBinary([Note("foo", [1]), Note("bar", [2])]);
    assert bin.notes[0].name == "foo";
    var out := ElfBinary([Note("foo", [1]), Note("foo", [3])]);
    assert RemoveAt(bin.notes, 1) + [Note("foo", [3])] == out.notes;
    FilterNone(out.notes, NotNamed("foo"));
    assert bin.notes == [Note("foo", [1])] + [Note("bar", [2])];
    FilterConcat([Note("foo", [1])], [Note("bar", [2])], NotNamed("foo"));
    FilterSingleton(Note("foo", [1]), NotNamed("foo"));
    FilterSingleton(Note("bar", [2]), NotNamed("foo"));
  }

  /** `inject_into_elf` as evidently intended: the note found by the search
      is the one removed, so notes with other names survive and only the
      last same-named note is replaced. */
  function PyInjectElf(bin: ElfBinary, name: string, data: Bytes, overwrite: bool)
    : (r: Option<ElfBinary>)
    ensures r.None? <==> !overwrite && HasNote(bin.notes, name)
    ensures r.Some? ==> Others(r.value.notes, name) == Others(bin.notes, name)
    ensures r.Some?
            ==> Named(r.value.notes, name)
                == (if HasNote(bin.notes, name) then DropLast(Named(bin.notes, name)) else []) + [Note(name, data)]
  {
    match ElfPolicy(Some(bin), name, data, overwrite)
    case Injected(b) =>
      InjectedNotes(bin, name, data, overwrite);
      Some(b)
    case _ => None
  }

  // ----- Mach-O -----

  /** What a Python injector reports, and the successive contents it
      writes to the target file. */
  datatype PyOutcome<B> = PyOutcome(ok: bool, writes: seq<B>)

  /** The slices on which `step` does not inject. */
  function Refused<B>(step: B -> Injection<B>): B -> bool {
    b => !step(b).Injected?
  }

  /** A loop that applies `step` to each slice in turn and writes the
      result at once, stopping at the first slice it does not inject. */
  function WriteEach<B>(fat: seq<B>, step: B -> Injection<B>): (r: PyOutcome<B>)
    ensures r.ok <==> FirstIndex(fat, Refused(step)).None?
    ensures r.ok ==> |r.writes| == |fat|
    ensures !r.ok ==> FirstIndex(fat, Refused(step)) == Some(|r.writes|)
    ensures forall k :: 0 <= k < |r.writes| ==> k < |fat| && step(fat[k]) == Injected(r.writes[k])
  {
    if |fat| == 0 then PyOutcome(true, [])
    else
      match step(fat[0])
      case Injected(first) =>
        var rest := WriteEach(fat[1..], step);
        assert forall i :: 1 <= i < |fat| ==> fat[i] == fat[1..][i - 1];
        var writes := [first] + rest.writes;
        assert forall k :: 1 <= k < |writes| ==> writes[k] == rest.writes[k - 1];
        PyOutcome(rest.ok, writes)
      case _ => PyOutcome(false, [])
  }

  /** `inject_into_macho` as written: each slice is written as soon as it
      is injected, so a slice found to hold the section makes the function
      return `False` after the slices before it have been written. */
  function PyInjectMachOAsWritten(fat: FatBinary, seg: string, sect: string, data: Bytes, overwrite: bool)
    : (r: PyOutcome<MachOBinary>)
    ensures r.ok <==> !(!overwrite && exists i :: 0 <= i < |fat| && HasSection(fat[i], seg, sect))
    ensures r.ok ==> |r.writes| == |fat|
    ensures forall k :: 0 <= k < |r.writes| ==> k < |fat| && SliceInjected(fat[k], r.writes[k], seg, sect, data)
    ensures !r.ok ==> (&& |r.writes| < |fat| && HasSection(fat[|r.writes|], seg, sect)
                       && forall k :: 0 <= k < |r.writes| ==> !HasSection(fat[k], seg, sect))
  {
    WriteEach(fat, b => InjectSlice(b, seg, sect, data, overwrite))
  }

  /** The discrepancy: a two-slice binary whose second slice already has
      the section is reported as not injected, yet the file was written. */
  lemma PyMachOWritesBeforeRefusing()
    ensures var hit := MachOBinary([Segment("__POSTJECT", VM_PROT_READ, VM_PROT_READ, [Section("__foo", [1])])], false);
            var out := PyInjectMachOAsWritten([MachOBinary([], false), hit], "__POSTJECT", "__foo", [2], false);
            !out.ok && |out.writes| == 1
  {
    var hit := MachOBinary([Segment("__POSTJECT", VM_PROT_READ, VM_PROT_READ, [Section("__foo", [1])])], false);
    var fat := [MachOBinary([], false), hit];
    assert GetSegment(hit, "__POSTJECT") == Some(0);
    assert hit.segments[0].sections[0].name == "__foo";
    assert HasSection(hit, "__POSTJECT", "__foo");
    assert !HasSection(fat[0], "__POSTJECT", "__foo");
    assert fat[1..] == [hit];
  }

  /** `inject_into_macho` as evidently intended: every slice is checked and
      injected first, and the whole fat binary is written once, only when
      the injection succeeds. */
  function PyInjectMachO(fat: FatBinary, seg: string, sect: string, data: Bytes, overwrite: bool)
    : (r: PyOutcome<FatBinary>)
    ensures r.ok <==> !(!overwrite && exists i :: 0 <= i < |fat| && HasSection(fat[i], seg, sect))
    ensures !r.ok ==> r.writes == []
    ensures r.ok ==> |r.writes| == 1 && |r.writes[0]| == |fat|
    ensures r.ok ==> forall i :: 0 <= i < |fat| ==> SliceInjected(fat[i], r.writes[0][i], seg, sect, data)
  {
    match InjectFat(fat, seg, sect, data, overwrite)
    case Injected(out) => PyOutcome(true, [out])
    case _ => PyOutcome(false, [])
  }

  // ----- PE -----

  predicate SortedById(s: seq<TypeNode>) {
    forall i, j :: 0 <= i < j < |s| ==> s[i].id <= s[j].id
  }

  /** `x` inserted into sorted `s` after every entry with an id not above
      its own. */
  function InsertById(x: TypeNode, s: seq<TypeNode>): (r: seq<TypeNode>)
    requires SortedById(s)
    ensures SortedById(r)
    ensures multiset(r) == multiset(s) + multiset{x}
    ensures |r| > 0 && (r[0] == x || (|s| > 0 && r[0] == s[0]))
  {
    if |s| == 0 then [x]
    else if x.id < s[0].id then [x] + s
    else
      assert s == [s[0]] + s[1..];
      [s[0]] + InsertById(x, s[1..])
  }

  /** `ResourceNode.sort_by_id` on the root's children: the type
      directories in ascending id order. */
  function SortById(s: seq<TypeNode>): (r: seq<TypeNode>)
    ensures SortedById(r)
    ensures multiset(r) == multiset(s)
    decreases |s|
  {
    if |s| == 0 then []
    else
      assert s == s[..|s| - 1] + [s[|s| - 1]];
      InsertById(s[|s| - 1], SortById(s[..|s| - 1]))
  }

  /** After adding the RCDATA directory to a tree that had none and sorting,
      the first RCDATA directory is the one just added. */
  lemma SortedTreeFindsNewRcdata(types: seq<TypeNode>)
    requires RcdataIndex(types).None?
    ensures var sorted := SortById(types + [TypeNode(RT_RCDATA, [])]);
            RcdataIndex(sorted).Some? && sorted[RcdataIndex(sorted).value] == TypeNode(RT_RCDATA, [])
  {
    var created := TypeNode(RT_RCDATA, []);
    var sorted := SortById(types + [created]);
    assert created in multiset(sorted);
    var k :| 0 <= k < |sorted| && sorted[k] == created;
    assert sorted[k].id == RT_RCDATA;
    var t := RcdataIndex(sorted).value;
    assert sorted[t] in multiset(types + [created]);
  }

  /** The language entries of the resource after a Python injection: with
      an existing entry, the first is deleted and that same object, now
      holding `data`, is added back last; otherwise a fresh entry (id 0)
      is created. */
  function PyRefill(langs: seq<LangNode>, data: Bytes): (r: seq<LangNode>)
    ensures |r| == if |langs| > 0 then |langs| else 1
    ensures r[|r| - 1].content == data
    ensures |langs| > 0 ==> r[..|r| - 1] == langs[1..] && r[|r| - 1].id == langs[0].id
  {
    if |langs| > 0 then langs[1..] + [LangNode(langs[0].id, data)] else [LangNode(0, data)]
  }

  /** `inject_into_pe` on the resource tree: like the C++ placement, but a
      created RCDATA directory is followed by sorting the type directories
      by id, and with `overwrite` the deleted language entry keeps its
      language id (see `PyRefill`). */
  function PyPlaceResource(types: seq<TypeNode>, name: string, data: Bytes, overwrite: bool)
    : (r: Option<seq<TypeNode>>)
    ensures r.None? <==> !overwrite && |LangsOf(types, name)| > 0
    ensures r.Some? ==> Lookup(r.value, name) == Some(PyRefill(LangsOf(types, name), data))
    ensures r.Some? && RcdataIndex(types).None? ==> SortedById(r.value)
  {
    if RcdataIndex(types).None? then
      var sorted := SortById(types + [TypeNode(RT_RCDATA, [])]);
      SortedTreeFindsNewRcdata(types);
      assert LangsOf(sorted, name) == [];
      PyPlaceInKeepsOrder(sorted, name, data, overwrite);
      PyPlaceIn(sorted, name, data, overwrite)
    else
      PyPlaceIn(types, name, data, overwrite)
  }

  /** The name and language levels of the Python placement, below the
      RCDATA directory already present in `types`. */
  function PyPlaceIn(types: seq<TypeNode>, name: string, data: Bytes, overwrite: bool)
    : (r: Option<seq<TypeNode>>)
    requires RcdataIndex(types).Some?
    ensures r.None? <==> !overwrite && |LangsOf(types, name)| > 0
    ensures r.Some? ==> Lookup(r.value, name) == Some(PyRefill(LangsOf(types, name), data))
  {
    var t := RcdataIndex(types).value;
    var rc := types[t];
    var (names1, n) := WithName(rc.names, name);
    var node := names1[n];
    if |node.langs| > 0 && !overwrite then None
    else
      var names2 := names1[n := node.(langs := PyRefill(node.langs, data))];
      var types2 := types[t := rc.(names := names2)];
      SameFirstIndex(names1, names2, NameNamed(name));
      SameFirstIndex(types, types2, TypeWithId(RT_RCDATA));
      Some(types2)
  }

  /** The placement below the RCDATA directory keeps every type directory's
      id, so a tree sorted by id stays sorted. */
  lemma PyPlaceInKeepsOrder(types: seq<TypeNode>, name: string, data: Bytes, overwrite: bool)
    requires RcdataIndex(types).Some?
    requires SortedById(types)
    ensures PyPlaceIn(types, name, data, overwrite).Some? ==> SortedById(PyPlaceIn(types, name, data, overwrite).value)
  {
  }

  /** A tree without an RCDATA directory gains one, holding only the new
      resource as its single language entry. */
  lemma PyPlaceCreatesRcdata(types: seq<TypeNode>, name: string, data: Bytes, overwrite: bool)
    requires RcdataIndex(types).None?
    ensures PyPlaceResource(types, name, data, overwrite).Some?
    ensures Lookup(PyPlaceResource(types, name, data, overwrite).value, name) == Some([LangNode(0, data)])
  {
  }

  /** The Python and C++ placements refuse in the same cases. */
  lemma PlacementsAgreeOnVerdict(types: seq<TypeNode>, name: string, data: Bytes, overwrite: bool)
    ensures PyPlaceResource(types, name, data, overwrite).None?
            <==> PlaceResource(types, name, data, overwrite).Exists?
  {
  }

  /** When they inject, the Python and C++ placements leave the same
      contents, in the same order, under the resource's name; only the
      language id of an overwritten entry can differ. */
  lemma PlacementsAgreeOnContents(types: seq<TypeNode>, name: string, data: Bytes, overwrite: bool)
    requires overwrite || LangsOf(types, name) == []
    ensures var py := Lookup(PyPlaceResource(types, name, data, overwrite).value, name).value;
            var cpp := Lookup(PlaceResource(types, name, data, overwrite).binary, name).value;
            && |py| == |cpp|
            && forall i :: 0 <= i < |py| ==> py[i].content == cpp[i].content
  {
    var langs := LangsOf(types, name);
    assert Lookup(PyPlaceResource(types, name, data, overwrite).value, name) == Some(PyRefill(langs, data));
    assert Lookup(PlaceResource(types, name, data, overwrite).binary, name) == Some(DropFirst(langs) + [LangNode(0, data)]);
    RefillContents(langs, data);
  }

  /** The Python refill and the C++ one hold the same contents in the same
      order; only the id of the moved entry can differ. */
  lemma RefillContents(langs: seq<LangNode>, data: Bytes)
    ensures var py := PyRefill(langs, data);
            var cpp := DropFirst(langs) + [LangNode(0, data)];
            && |py| == |cpp|
            && forall i :: 0 <= i < |py| ==> py[i].content == cpp[i].content
  {
    if |langs| > 0 {
      assert DropFirst(langs) == langs[1..];
    }
  }
}
