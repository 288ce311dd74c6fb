/** `inject_into_elf` (src/postject.cpp): the resource becomes an ELF note
    whose name is the resource name and whose description is the payload.
    LIEF's parser and serialiser are oracles; the parsed image is reduced
    to its list of notes. */
module ElfInject {
  import opened Basics
  import opened Seqs
  import opened Postject

  /** An ELF note: its owner name and its description bytes. */
  datatype Note = Note(name: string, description: Bytes)

  /** A parsed ELF image, seen only through its notes, in order. */
  datatype ElfBinary = ElfBinary(notes: seq<Note>)

  function NamedAs(name: string): Note -> bool {
    (n: Note) => n.name == name
  }

  function NotNamed(name: string): Note -> bool {
    (n: Note) => n.name != name
  }

  /** The notes called `name`, in order. */
  function Named(notes: seq<Note>, name: string): seq<Note> {
    Filter(notes, NamedAs(name))
  }

  /** The notes not called `name`, in order. */
  function Others(notes: seq<Note>, name: string): seq<Note> {
    Filter(notes, NotNamed(name))
  }

  predicate HasNote(notes: seq<Note>, name: string) {
    exists i :: 0 <= i < |notes| && notes[i].name == name
  }

  /** The note the source's search loop settles on: it has no `break`, so
      every later match overwrites the earlier one and the last match wins. */
  function ExistingNote(notes: seq<Note>, name: string): (r: Option<nat>)
    ensures r.None? <==> !HasNote(notes, name)
    ensures r.Some? ==> r.value < |notes| && notes[r.value].name == name
    ensures r.Some? ==> forall j :: r.value < j < |notes| ==> notes[j].name != name
  {
    var r := LastIndex(notes, NamedAs(name));
    assert r.None? ==> forall i :: 0 <= i < |notes| ==> !NamedAs(name)(notes[i]);
    r
  }

  /** The injection policy over a parse result: a failed parse is an error;
      an existing note blocks the injection unless `overwrite`, in which
      case that note is removed; then the new note is appended. */
  function ElfPolicy(parsed: Option<ElfBinary>, noteName: string, data: Bytes, overwrite: bool)
    : (r: Injection<ElfBinary>)
    ensures r.Failed? <==> parsed.None?
    ensures r.Exists? <==> parsed.Some? && !overwrite && HasNote(parsed.value.notes, noteName)
    ensures r.Injected? ==> |r.binary.notes| > 0
    ensures r.Injected? ==> r.binary.notes[|r.binary.notes| - 1] == Note(noteName, data)
    ensures r.Injected? && HasNote(parsed.value.notes, noteName)
            ==> |r.binary.notes| == |parsed.value.notes|
    ensures r.Injected? && !HasNote(parsed.value.notes, noteName)
            ==> |r.binary.notes| == |parsed.value.notes| + 1
  {
    match parsed
    case None => Failed
    case Some(bin) =>
      var note := Note(noteName, data);
      match ExistingNote(bin.notes, noteName)
      case None => Injected(ElfBinary(bin.notes + [note]))
      case Some(i) =>
        if !overwrite then Exists
        else Injected(ElfBinary(RemoveAt(bin.notes, i) + [note]))
  }

  /** `inject_into_elf`: the policy applied to LIEF's parse of `exe`, with
      the output serialised by LIEF only on success. */
  function InjectIntoElf(exe: Bytes, parse: Bytes -> Option<ElfBinary>, raw: ElfBinary -> Bytes,
                         noteName: string, data: Bytes, overwrite: bool): (r: InjectResult)
    ensures r.kind == Error <==> parse(exe).None?
    ensures r.kind == AlreadyExists
            <==> parse(exe).Some? && !overwrite && HasNote(parse(exe).value.notes, noteName)
    ensures r.kind == Success <==> parse(exe).Some? && (overwrite || !HasNote(parse(exe).value.notes, noteName))
    ensures r.kind != Success ==> r.output == []
    ensures r.kind == Success ==> r.output == raw(ElfPolicy(parse(exe), noteName, data, overwrite).binary)
  {
    ToInjectResult(ElfPolicy(parse(exe), noteName, data, overwrite), raw)
  }

  /** What a successful injection does to the notes: the notes with other
      names are kept, in order; among the notes called `noteName` only the
      last one is dropped (and only if there was one), and the new note
      comes after all of them. */
  lemma {:induction false} InjectedNotes(bin: ElfBinary, noteName: string, data: Bytes, overwrite: bool)
    requires ElfPolicy(Some(bin), noteName, data, overwrite).Injected?
    ensures var out := ElfPolicy(Some(bin), noteName, data, overwrite).binary.notes;
            var before := Named(bin.notes, noteName);
            && Others(out, noteName) == Others(bin.notes, noteName)
            && (HasNote(bin.notes, noteName) ==> |before| > 0)
            && Named(out, noteName)
               == (if HasNote(bin.notes, noteName) then DropLast(before) else []) + [Note(noteName, data)]
  {
    var note := Note(noteName, data);
    var kept: seq<Note>;
    match ExistingNote(bin.notes, noteName)
    case None =>
      kept := bin.notes;
      FilterNone(bin.notes, NamedAs(noteName));
    case Some(i) =>
      kept := RemoveAt(bin.notes, i);
      FilterRemoveLast(bin.notes, NamedAs(noteName), NotNamed(noteName), i);
    var out := ElfPolicy(Some(bin), noteName, data, overwrite).binary.notes;
    assert out == kept + [note];
    FilterConcat(kept, [note], NamedAs(noteName));
    FilterConcat(kept, [note], NotNamed(noteName));
    FilterSingleton(note, NamedAs(noteName));
    FilterSingleton(note, NotNamed(noteName));
  }

  /** Overwriting leaves exactly one note of the given name whenever there
      was at most one before, and its description is the new payload. */
  lemma OverwriteLeavesOneNote(bin: ElfBinary, noteName: string, data: Bytes)
    requires |Named(bin.notes, noteName)| <= 1
    ensures ElfPolicy(Some(bin), noteName, data, true).Injected?
    ensures Named(ElfPolicy(Some(bin), noteName, data, true).binary.notes, noteName) == [Note(noteName, data)]
  {
    InjectedNotes(bin, noteName, data, true);
  }
}
