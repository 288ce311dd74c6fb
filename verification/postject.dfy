/** The injector's public vocabulary (src/postject.hpp) and its format
    detection (src/postject.cpp).  The three LIEF recognisers `is_elf`,
    `is_macho` and `is_pe` are uninterpreted predicates over the image. */
module Postject {
  import opened Basics

  datatype ExecutableFormat = ELF | MachO | PE | Unknown

  datatype InjectResultType = AlreadyExists | Error | Success

  /** What every `inject_into_*` returns: a verdict and, on success only,
      the rewritten image (the C++ struct default-initialises it empty). */
  datatype InjectResult = InjectResult(kind: InjectResultType, output: Bytes)

  /** The format recognisers, as uninterpreted predicates over the image. */
  datatype Probes = Probes(isElf: Bytes -> bool, isMachO: Bytes -> bool, isPe: Bytes -> bool)

  /** The outcome of an injection policy over a parsed container of type `B`:
      the parse failed, the resource is already present and may not be
      overwritten, or the container now carries the resource. */
  datatype Injection<+B> = Failed | Exists | Injected(binary: B)

  /** `get_executable_format`: ELF is tested first, then Mach-O, then PE. */
  function DetectFormat(exe: Bytes, probes: Probes): (f: ExecutableFormat)
    ensures f == ELF <==> probes.isElf(exe)
    ensures f == MachO <==> !probes.isElf(exe) && probes.isMachO(exe)
    ensures f == PE <==> !probes.isElf(exe) && !probes.isMachO(exe) && probes.isPe(exe)
    ensures f == Unknown <==> !probes.isElf(exe) && !probes.isMachO(exe) && !probes.isPe(exe)
  {
    if probes.isElf(exe) then ELF
    else if probes.isMachO(exe) then MachO
    else if probes.isPe(exe) then PE
    else Unknown
  }

  /** Turns a policy outcome into the `InjectResult` the C++ entry points
      return; `raw` is LIEF's serialiser, consulted only on success. */
  function ToInjectResult<B>(inj: Injection<B>, raw: B -> Bytes): (r: InjectResult)
    ensures r.kind == Success <==> inj.Injected?
    ensures r.kind == Error <==> inj.Failed?
    ensures r.kind == AlreadyExists <==> inj.Exists?
    ensures r.kind == Success ==> r.output == raw(inj.binary)
    ensures r.kind != Success ==> r.output == []
  {
    match inj
    case Failed => InjectResult(Error, [])
    case Exists => InjectResult(AlreadyExists, [])
    case Injected(b) => InjectResult(Success, raw(b))
  }
}
