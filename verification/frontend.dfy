/** The per-format dispatch the three front-ends share (src/api.js,
    src/main.js and `main` in postject.py): which injector is called for a
    detected format, with which normalised name. */
module Frontend {
  import opened Basics
  import opened Postject
  import opened Names

  /** One injector call, without the image it is made on. */
  datatype Request =
    | ElfRequest(noteName: string, data: Bytes, overwrite: bool)
    | MachORequest(segment: string, section: string, data: Bytes, overwrite: bool)
    | PeRequest(resourceName: string, data: Bytes, overwrite: bool)

  /** The `switch` on the detected format: the call made for it, or none
      when no case matches (kUnknown). */
  function RequestFor(format: ExecutableFormat, resourceName: string, segment: string, data: Bytes, overwrite: bool)
    : (r: Option<Request>)
    ensures r.None? <==> format == Unknown
    ensures r.Some? ==> r.value.data == data && r.value.overwrite == overwrite
    ensures format == ELF ==> r.value.ElfRequest?
    ensures format == MachO ==> r.value.MachORequest? && r.value.segment == segment
    ensures format == PE ==> r.value.PeRequest?
  {
    match format
    case MachO => Some(MachORequest(segment, MachOSectionName(resourceName), data, overwrite))
    case ELF => Some(ElfRequest(ElfNoteName(resourceName), data, overwrite))
    case PE => Some(PeRequest(PeResourceName(resourceName), data, overwrite))
    case Unknown => None
  }

  /** The name each injector receives: on Mach-O it starts with `__` and
      ends with the requested name, on ELF it is the requested name, on PE
      it is the requested name in upper case. */
  lemma RequestedNames(format: ExecutableFormat, name: string, segment: string, data: Bytes, overwrite: bool)
    requires format != Unknown
    ensures var q := RequestFor(format, name, segment, data, overwrite).value;
            match q
            case ElfRequest(n, _, _) => n == name
            case MachORequest(_, s, _, _) =>
              && StartsWith(s, SectionPrefix)
              && |name| <= |s| && s[|s| - |name|..] == name
              && (StartsWith(name, SectionPrefix) <==> s == name)
            case PeRequest(n, _, _) =>
              && |n| == |name|
              && (forall i :: 0 <= i < |n| ==> !IsLower(n[i]))
              && (forall i :: 0 <= i < |n| ==> IsLower(name[i]) || n[i] == name[i])
              && (forall i :: 0 <= i < |n| && IsLower(name[i]) ==> n[i] as int == name[i] as int - 32)
  {
    if format == MachO {
      var s := MachOSectionName(name);
      MachOSectionNameFixedPoints(name);
      if !StartsWith(name, SectionPrefix) {
        assert s == SectionPrefix + name;
        assert s[|s| - |name|..] == name;
      }
    }
  }

  /** Asking for `n` and for `__n` makes the same Mach-O call unless `n`
      already starts with `__`; asking for a name and for its upper-case
      form makes the same PE call. */
  lemma EquivalentRequests(name: string, segment: string, data: Bytes, overwrite: bool)
    ensures !StartsWith(name, SectionPrefix)
            ==> RequestFor(MachO, name, segment, data, overwrite)
                == RequestFor(MachO, SectionPrefix + name, segment, data, overwrite)
    ensures RequestFor(PE, name, segment, data, overwrite)
            == RequestFor(PE, PeResourceName(name), segment, data, overwrite)
  {
    MachOSectionNameAbsorbsPrefix(name);
    PeResourceNameIdempotent(name);
  }

  /** What the front-end sees in `result` after the `switch`: the verdict
      of the injector call, or nothing when no case ran. */
  function SwitchResult(exe: Bytes, format: ExecutableFormat, resourceName: string, segment: string,
                        data: Bytes, overwrite: bool, injector: (Bytes, Request) -> InjectResult)
    : (r: Option<InjectResult>)
    ensures r.None? <==> format == Unknown
    ensures r.Some? ==> r.value == injector(exe, RequestFor(format, resourceName, segment, data, overwrite).value)
  {
    match RequestFor(format, resourceName, segment, data, overwrite)
    case None => None
    case Some(q) => Some(injector(exe, q))
  }

  /** A JavaScript value, as far as its truthiness goes (NaN and -0 are
      not represented). */
  datatype JsValue = Undefined | Null | Boolean(b: bool) | Number(n: int) | JsString(s: string) | Object

  /** ToBoolean: `undefined`, `null`, `false`, `0` and `""` are falsy;
      everything else, every object included, is truthy. */
  predicate Truthy(v: JsValue) {
    match v
    case Undefined => false
    case Null => false
    case Boolean(b) => b
    case Number(n) => n != 0
    case JsString(s) => s != ""
    case Object => true
  }

  /** How `getExecutableFormat`'s result reaches JavaScript: embind
      registers the enum with `enum_`, whose values are objects. */
  function FormatValue(f: ExecutableFormat): JsValue {
    Object
  }

  /** The `!executableFormat` guard of the JavaScript front-ends as
      written, applied to the value JavaScript receives. */
  function NeverRejects(f: ExecutableFormat): (r: bool)
    ensures !r
  {
    !Truthy(FormatValue(f))
  }

  /** The guard as intended: an unrecognised image is refused. */
  function RejectsUnknown(f: ExecutableFormat): bool {
    f == Unknown
  }
}
