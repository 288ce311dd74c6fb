/** `inject_into_macho` (src/postject.cpp): the resource becomes a section
    of a named segment in every slice of a (possibly fat) Mach-O binary.
    LIEF's parser and serialiser are oracles; a slice is reduced to its
    segments and whether it carries a code signature. */
module MachOInject {
  import opened Basics
  import opened Seqs
  import opened Postject

  /** `VM_PROT_READ` from <mach/vm_prot.h>. */
  const VM_PROT_READ: nat := 1

  datatype Section = Section(name: string, content: Bytes)

  datatype Segment = Segment(name: string, maxProtection: nat, initProtection: nat, sections: seq<Section>)

  /** One thin Mach-O binary (one slice of a fat binary). */
  datatype MachOBinary = MachOBinary(segments: seq<Segment>, hasCodeSignature: bool)

  /** A fat binary: its slices, in order (a thin binary is one slice). */
  type FatBinary = seq<MachOBinary>

  function SegmentNamed(name: string): Segment -> bool {
    (s: Segment) => s.name == name
  }

  function SectionNamed(name: string): Section -> bool {
    (s: Section) => s.name == name
  }

  function SectionNotNamed(name: string): Section -> bool {
    (s: Section) => s.name != name
  }

  /** `get_segment`: the first segment called `name`. */
  function GetSegment(bin: MachOBinary, name: string): (r: Option<nat>)
    ensures r.None? <==> forall i :: 0 <= i < |bin.segments| ==> bin.segments[i].name != name
    ensures r.Some? ==> r.value < |bin.segments| && bin.segments[r.value].name == name
    ensures r.Some? ==> forall j :: 0 <= j < r.value ==> bin.segments[j].name != name
  {
    var r := FirstIndex(bin.segments, SegmentNamed(name));
    assert r.None? ==> forall i :: 0 <= i < |bin.segments| ==> !SegmentNamed(name)(bin.segments[i]);
    r
  }

  /** `get_section(segment, section)`: a section called `sect` inside the
      segment `get_segment(seg)` finds. */
  predicate HasSection(bin: MachOBinary, seg: string, sect: string)
    ensures HasSection(bin, seg, sect)
            <==> exists i :: && 0 <= i < |bin.segments| && bin.segments[i].name == seg
                             && (forall j :: 0 <= j < i ==> bin.segments[j].name != seg)
                             && exists k :: 0 <= k < |bin.segments[i].sections| && bin.segments[i].sections[k].name == sect
  {
    match GetSegment(bin, seg)
    case None => false
    case Some(i) =>
      exists k :: 0 <= k < |bin.segments[i].sections| && bin.segments[i].sections[k].name == sect
  }

  /** The declarative effect of injecting section `sect` of segment `seg`
      into one slice: the signature is gone; if the segment was missing, a
      read-only segment holding just the new section is appended and
      nothing else changes; otherwise only that segment changes, keeping
      its name, protections and differently named sections, losing the
      first section called `sect` (if any) and gaining the new one last. */
  predicate SliceInjected(before: MachOBinary, after: MachOBinary, seg: string, sect: string, data: Bytes) {
    && !after.hasCodeSignature
    && match GetSegment(before, seg)
       case None =>
         after.segments == before.segments + [Segment(seg, VM_PROT_READ, VM_PROT_READ, [Section(sect, data)])]
       case Some(i) =>
         && |after.segments| == |before.segments|
         && (forall j :: 0 <= j < |before.segments| && j != i ==> after.segments[j] == before.segments[j])
         && SegmentInjected(before.segments[i], after.segments[i], sect, data)
  }

  /** An existing segment after the injection of section `sect`. */
  predicate SegmentInjected(was: Segment, now: Segment, sect: string, data: Bytes) {
    && now.name == was.name
    && now.maxProtection == was.maxProtection
    && now.initProtection == was.initProtection
    && Filter(now.sections, SectionNotNamed(sect)) == Filter(was.sections, SectionNotNamed(sect))
    && Filter(now.sections, SectionNamed(sect))
       == DropFirst(Filter(was.sections, SectionNamed(sect))) + [Section(sect, data)]
  }

  /** One iteration of the source's loop over the slices: an existing
      section blocks the injection unless `overwrite`, in which case it is
      removed; the section is added to the segment, which is created
      read-only when missing; the code signature is removed. */
  function InjectSlice(bin: MachOBinary, seg: string, sect: string, data: Bytes, overwrite: bool)
    : (r: Injection<MachOBinary>)
    ensures !r.Failed?
    ensures r.Exists? <==> !overwrite && HasSection(bin, seg, sect)
    ensures r.Injected? ==> SliceInjected(bin, r.binary, seg, sect, data)
  {
    var section := Section(sect, data);
    match GetSegment(bin, seg)
    case None =>
      var created := Segment(seg, VM_PROT_READ, VM_PROT_READ, [section]);
      Injected(MachOBinary(bin.segments + [created], false))
    case Some(i) =>
      var was := bin.segments[i];
      var existing := FirstIndex(was.sections, SectionNamed(sect));
      if existing.Some? && !overwrite then Exists
      else
        var kept := if existing.Some? then RemoveAt(was.sections, existing.value) else was.sections;
        var updated := was.(sections := kept + [section]);
        var r := Injected(MachOBinary(bin.segments[i := updated], false));
        SectionsInjected(was.sections, existing, sect, data);
        r
  }

  /** The section list of the chosen segment after one injection. */
  lemma SectionsInjected(sections: seq<Section>, existing: Option<nat>, sect: string, data: Bytes)
    requires existing == FirstIndex(sections, SectionNamed(sect))
    ensures var kept := if existing.Some? then RemoveAt(sections, existing.value) else sections;
            && Filter(kept + [Section(sect, data)], SectionNotNamed(sect)) == Filter(sections, SectionNotNamed(sect))
            && Filter(kept + [Section(sect, data)], SectionNamed(sect))
               == DropFirst(Filter(sections, SectionNamed(sect))) + [Section(sect, data)]
  {
    var section := Section(sect, data);
    var kept := if existing.Some? then RemoveAt(sections, existing.value) else sections;
    if existing.Some? {
      FilterRemoveFirst(sections, SectionNamed(sect), SectionNotNamed(sect), existing.value);
    } else {
      FilterNone(sections, SectionNamed(sect));
    }
    FilterConcat(kept, [section], SectionNamed(sect));
    FilterConcat(kept, [section], SectionNotNamed(sect));
    FilterSingleton(section, SectionNamed(sect));
    FilterSingleton(section, SectionNotNamed(sect));
  }

  /** The loop over every slice of the fat binary: the first slice that
      already has the section stops everything unless `overwrite`. */
  function InjectFat(fat: FatBinary, seg: string, sect: string, data: Bytes, overwrite: bool)
    : (r: Injection<FatBinary>)
    ensures !r.Failed?
    ensures r.Exists? <==> !overwrite && exists i :: 0 <= i < |fat| && HasSection(fat[i], seg, sect)
    ensures r.Injected? ==> |r.binary| == |fat|
    ensures r.Injected? ==> forall i :: 0 <= i < |fat| ==> SliceInjected(fat[i], r.binary[i], seg, sect, data)
  {
    if |fat| == 0 then Injected([])
    else
      match InjectSlice(fat[0], seg, sect, data, overwrite)
      case Exists => Exists
      case Injected(first) =>
        match InjectFat(fat[1..], seg, sect, data, overwrite)
        case Exists => Exists
        case Injected(rest) =>
          assert forall i :: 1 <= i < |fat| ==> fat[i] == fat[1..][i - 1];
          Injected([first] + rest)
  }

  /** The policy over LIEF's parse result. */
  function MachOPolicy(parsed: Option<FatBinary>, seg: string, sect: string, data: Bytes, overwrite: bool)
    : (r: Injection<FatBinary>)
    ensures r.Failed? <==> parsed.None?
    ensures r.Exists?
            <==> (parsed.Some? && !overwrite
                  && exists i :: 0 <= i < |parsed.value| && HasSection(parsed.value[i], seg, sect))
    ensures r.Injected? ==> |r.binary| == |parsed.value|
    ensures r.Injected? ==> forall i :: 0 <= i < |r.binary| ==> SliceInjected(parsed.value[i], r.binary[i], seg, sect, data)
  {
    match parsed
    case None => Failed
    case Some(fat) => InjectFat(fat, seg, sect, data, overwrite)
  }

  /** `inject_into_macho`: the policy applied to LIEF's parse of `exe`, with
      the output serialised by LIEF only on success. */
  function InjectIntoMachO(exe: Bytes, parse: Bytes -> Option<FatBinary>, raw: FatBinary -> Bytes,
                           seg: string, sect: string, data: Bytes, overwrite: bool): (r: InjectResult)
    ensures r.kind == Error <==> parse(exe).None?
    ensures r.kind == AlreadyExists
            <==> (parse(exe).Some? && !overwrite
                  && exists i :: 0 <= i < |parse(exe).value| && HasSection(parse(exe).value[i], seg, sect))
    ensures r.kind != Success ==> r.output == []
    ensures r.kind == Success ==> r.output == raw(MachOPolicy(parse(exe), seg, sect, data, overwrite).binary)
  {
    ToInjectResult(MachOPolicy(parse(exe), seg, sect, data, overwrite), raw)
  }

  /** After a successful injection the slice has the section, placed last
      in the segment `get_segment` finds, and injecting again without
      `overwrite` reports that it already exists. */
  lemma SliceCarriesSection(bin: MachOBinary, seg: string, sect: string, data: Bytes, overwrite: bool)
    requires InjectSlice(bin, seg, sect, data, overwrite).Injected?
    ensures var after := InjectSlice(bin, seg, sect, data, overwrite).binary;
            && GetSegment(after, seg).Some?
            && var s := after.segments[GetSegment(after, seg).value];
               |s.sections| > 0 && s.sections[|s.sections| - 1] == Section(sect, data)
    ensures var after := InjectSlice(bin, seg, sect, data, overwrite).binary;
            HasSection(after, seg, sect) && InjectSlice(after, seg, sect, data, false).Exists?
  {
    var after := InjectSlice(bin, seg, sect, data, overwrite).binary;
    var i: nat;
    match GetSegment(bin, seg)
    case None =>
      i := |bin.segments|;
      assert after.segments[i].name == seg;
      assert forall j :: 0 <= j < i ==> after.segments[j] == bin.segments[j];
    case Some(k) =>
      i := k;
      assert after.segments[i].name == seg;
      assert forall j :: 0 <= j < i ==> after.segments[j] == bin.segments[j];
    assert GetSegment(after, seg) == Some(i);
    var s := after.segments[i];
    assert |s.sections| > 0 && s.sections[|s.sections| - 1] == Section(sect, data);
    assert s.sections[|s.sections| - 1].name == sect;
  }
}
