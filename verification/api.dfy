/** `inject` (src/api.js): the library entry point.  It defaults the
    options, checks its arguments and the target file, detects the format,
    makes the per-format injector call and turns the verdict into a thrown
    error or a write of the new image.  The filesystem is reduced to what
    each of its calls reports, and the injector is an oracle. */
module Api {
  import opened Basics
  import opened Postject
  import opened Names
  import opened Frontend

  /** The caller's `options` object (either field may be absent). */
  datatype ApiOptions = ApiOptions(machoSegmentName: Option<string>, overwrite: Option<bool>)

  /** What the filesystem reports for the target: whether `access` with
      R_OK | W_OK succeeds, what `readFile` returns, whether `writeFile`
      succeeds. */
  datatype Target = Target(accessible: bool, contents: Option<Bytes>, writable: bool)

  /** The errors `inject` throws, in the order it can throw them. */
  datatype ApiError =
    | NotABuffer
    | NoAccess
    | Unreadable
    | UnsupportedFormat
    | AlreadyPresent(request: Request)
    | InjectionFailed
    | WriteFailed

  /** How a call ends: a thrown error, or the new image written back. */
  datatype ApiOutcome = Thrown(error: ApiError) | Written(image: Bytes)

  const OverwriteHint: string := "Use --overwrite to overwrite the existing content"

  /** `options?.machoSegmentName || "__POSTJECT"`: a missing or empty
      segment name falls back to the default. */
  function SegmentOption(options: Option<ApiOptions>): (s: string)
    ensures s != ""
    ensures s == DefaultSegment
            <==> (|| options.None? || options.value.machoSegmentName.None?
                  || options.value.machoSegmentName.value in {"", DefaultSegment})
    ensures options.Some? && options.value.machoSegmentName.Some? && options.value.machoSegmentName.value != ""
            ==> s == options.value.machoSegmentName.value
  {
    if options.Some? && options.value.machoSegmentName.Some? && options.value.machoSegmentName.value != ""
    then options.value.machoSegmentName.value
    else DefaultSegment
  }

  /** `options?.overwrite || false`. */
  function OverwriteOption(options: Option<ApiOptions>): (b: bool)
    ensures b <==> options.Some? && options.value.overwrite == Some(true)
  {
    options.Some? && options.value.overwrite.Some? && options.value.overwrite.value
  }

  /** `w` occurs in `m` at position `k`. */
  predicate OccursAt(m: string, w: string, k: nat) {
    k + |w| <= |m| && m[k..k + |w|] == w
  }

  predicate Contains(m: string, w: string) {
    exists k: nat | k <= |m| :: OccursAt(m, w, k)
  }

  predicate EndsWith(m: string, w: string) {
    |w| <= |m| && m[|m| - |w|..] == w
  }

  /** How the resource of a request is named in the "already exists"
      message: `segment/section` on Mach-O, the (normalised) name
      otherwise. */
  function ResourceLabel(q: Request): string {
    match q
    case MachORequest(seg, sect, _, _) => seg + "/" + sect
    case ElfRequest(n, _, _) => n
    case PeRequest(n, _, _) => n
  }

  function AlreadyExistsLead(q: Request): string {
    match q
    case MachORequest(_, _, _, _) => "Segment and section with that name already exists: "
    case ElfRequest(_, _, _) => "Section with that name already exists: "
    case PeRequest(_, _, _) => "Resource with that name already exists: "
  }

  /** The message of each thrown error.  The "already exists" messages name
      the resource and end with the overwrite hint; on ELF the source
      leaves out the line break between the two. */
  function Message(e: ApiError): (m: string)
    ensures m != ""
    ensures e.AlreadyPresent? ==> Contains(m, ResourceLabel(e.request)) && EndsWith(m, OverwriteHint)
  {
    match e
    case NotABuffer => "resourceData must be a buffer"
    case NoAccess => "Can't read and write to target executable"
    case Unreadable => "Couldn't read target executable"
    case UnsupportedFormat => "Executable must be a supported format: ELF, PE, or Mach-O"
    case AlreadyPresent(q) =>
      var lead := AlreadyExistsLead(q);
      var name := ResourceLabel(q);
      var m := lead + name + (if q.ElfRequest? then "" else "\n") + OverwriteHint;
      assert OccursAt(m, name, |lead|);
      m
    case InjectionFailed => "Error when injecting resource"
    case WriteFailed => "Couldn't write executable"
  }

  /** The injector call `inject` makes, if it gets that far: the bytes read
      from the target and the request for their format.  `rejects` is the
      test the `!executableFormat` guard applies to the detected format. */
  function CallMade(rejects: ExecutableFormat -> bool, resourceName: string, resourceData: Option<Bytes>,
                    options: Option<ApiOptions>, target: Target, probes: Probes)
    : (c: Option<(Bytes, Request)>)
    ensures c.None?
            <==> (|| resourceData.None? || !target.accessible || target.contents.None?
                  || rejects(DetectFormat(target.contents.value, probes))
                  || DetectFormat(target.contents.value, probes) == Unknown)
    ensures c.Some? ==> target.contents == Some(c.value.0)
    ensures c.Some? ==> c.value.1.data == resourceData.value && c.value.1.overwrite == OverwriteOption(options)
    ensures c.Some? && c.value.1.MachORequest? ==> c.value.1.segment == SegmentOption(options)
  {
    if resourceData.None? || !target.accessible || target.contents.None? then None
    else
      var exe := target.contents.value;
      var format := DetectFormat(exe, probes);
      if rejects(format) then None
      else
        match RequestFor(format, resourceName, SegmentOption(options), resourceData.value, OverwriteOption(options))
        case None => None
        case Some(q) => Some((exe, q))
  }

  /** `inject`, for a given reading of the format guard. */
  function InjectWith(rejects: ExecutableFormat -> bool, resourceName: string, resourceData: Option<Bytes>,
                      options: Option<ApiOptions>, target: Target, probes: Probes,
                      injector: (Bytes, Request) -> InjectResult)
    : (r: ApiOutcome)
    ensures resourceData.None? ==> r == Thrown(NotABuffer)
    ensures resourceData.Some? && !target.accessible ==> r == Thrown(NoAccess)
    ensures resourceData.Some? && target.accessible && target.contents.None? ==> r == Thrown(Unreadable)
    ensures r == Thrown(UnsupportedFormat)
            <==> (&& resourceData.Some? && target.accessible && target.contents.Some?
                  && rejects(DetectFormat(target.contents.value, probes)))
    ensures var c := CallMade(rejects, resourceName, resourceData, options, target, probes);
            r == Thrown(InjectionFailed)
            <==> (|| (c.Some? && injector(c.value.0, c.value.1).kind == Error)
                  || (&& resourceData.Some? && target.accessible && target.contents.Some?
                      && !rejects(DetectFormat(target.contents.value, probes))
                      && DetectFormat(target.contents.value, probes) == Unknown))
    ensures var c := CallMade(rejects, resourceName, resourceData, options, target, probes);
            c.Some? && injector(c.value.0, c.value.1).kind == Success && !target.writable
            ==> r == Thrown(WriteFailed)
    ensures var c := CallMade(rejects, resourceName, resourceData, options, target, probes);
            && (r.Written? <==> c.Some? && injector(c.value.0, c.value.1).kind == Success && target.writable)
            && (r.Written? ==> r.image == injector(c.value.0, c.value.1).output)
            && ((r.Thrown? && r.error.AlreadyPresent?)
                <==> c.Some? && injector(c.value.0, c.value.1).kind == AlreadyExists)
            && (r.Thrown? && r.error.AlreadyPresent? ==> r.error.request == c.value.1)
  {
    if resourceData.None? then Thrown(NotABuffer)
    else if !target.accessible then Thrown(NoAccess)
    else if target.contents.None? then Thrown(Unreadable)
    else
      var exe := target.contents.value;
      var format := DetectFormat(exe, probes);
      if rejects(format) then Thrown(UnsupportedFormat)
      else
        var req := RequestFor(format, resourceName, SegmentOption(options), resourceData.value, OverwriteOption(options));
        var result := SwitchResult(exe, format, resourceName, SegmentOption(options), resourceData.value,
                                   OverwriteOption(options), injector);
        if result.Some? && result.value.kind == AlreadyExists then Thrown(AlreadyPresent(req.value))
        else if result.None? || result.value.kind != Success then Thrown(InjectionFailed)
        else if !target.writable then Thrown(WriteFailed)
        else Written(result.value.output)
  }

  /** `inject` as written: kUnknown gets past the guard, matches no case of
      the `switch`, and surfaces as the generic injection error. */
  function InjectAsWritten(resourceName: string, resourceData: Option<Bytes>, options: Option<ApiOptions>,
                           target: Target, probes: Probes, injector: (Bytes, Request) -> InjectResult)
    : (r: ApiOutcome)
    ensures r != Thrown(UnsupportedFormat)
  {
    InjectWith(NeverRejects, resourceName, resourceData, options, target, probes, injector)
  }

  /** `inject` with the guard refusing kUnknown. */
  function Inject(resourceName: string, resourceData: Option<Bytes>, options: Option<ApiOptions>,
                  target: Target, probes: Probes, injector: (Bytes, Request) -> InjectResult)
    : (r: ApiOutcome)
    ensures r == Thrown(UnsupportedFormat)
            <==> (&& resourceData.Some? && target.accessible && target.contents.Some?
                  && DetectFormat(target.contents.value, probes) == Unknown)
    ensures var c := CallMade(RejectsUnknown, resourceName, resourceData, options, target, probes);
            r == Thrown(InjectionFailed) <==> c.Some? && injector(c.value.0, c.value.1).kind == Error
    ensures var c := CallMade(RejectsUnknown, resourceName, resourceData, options, target, probes);
            c.Some? && injector(c.value.0, c.value.1).kind == Success && !target.writable
            ==> r == Thrown(WriteFailed)
  {
    InjectWith(RejectsUnknown, resourceName, resourceData, options, target, probes, injector)
  }

  /** No image is written unless a recognised format was detected and the
      injector reported success, and what is written is its output. */
  lemma WrittenOnlyAfterSuccess(resourceName: string, resourceData: Option<Bytes>, options: Option<ApiOptions>,
                                target: Target, probes: Probes, injector: (Bytes, Request) -> InjectResult)
    requires Inject(resourceName, resourceData, options, target, probes, injector).Written?
    ensures resourceData.Some? && target.accessible && target.contents.Some? && target.writable
    ensures var exe := target.contents.value;
            var format := DetectFormat(exe, probes);
            var q := RequestFor(format, resourceName, SegmentOption(options), resourceData.value, OverwriteOption(options));
            && format != Unknown
            && injector(exe, q.value).kind == Success
            && Inject(resourceName, resourceData, options, target, probes, injector).image == injector(exe, q.value).output
  {
  }

  /** An image none of the probes recognises: the code as written reports
      the generic injection error where the unsupported-format error is
      meant. */
  lemma UnknownFormatSlipsThrough(resourceName: string, data: Bytes, target: Target,
                                  injector: (Bytes, Request) -> InjectResult)
    requires target.accessible && target.contents.Some?
    ensures var none := Probes(_ => false, _ => false, _ => false);
            && InjectAsWritten(resourceName, Some(data), None, target, none, injector) == Thrown(InjectionFailed)
            && Inject(resourceName, Some(data), None, target, none, injector) == Thrown(UnsupportedFormat)
  {
  }
}
