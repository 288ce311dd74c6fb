/** `main` (src/main.js): the command-line entry point behind commander.
    It prints the API header on request, checks the target and the resource
    file, detects the format, makes the per-format injector call and maps
    the verdict to an exit code, writing the new image only on success.
    Console output is not modelled; files are reduced to what each
    filesystem call reports and the injector is an oracle. */
module CliMain {
  import opened Basics
  import opened Postject
  import opened Names
  import opened Frontend
  import Api

  /** The options commander hands to `main`.  `--macho-segment-name`
      defaults to `__POSTJECT` only when the flag is absent. */
  datatype CommanderOptions = CommanderOptions(machoSegmentName: Option<string>, outputApiHeader: bool, overwrite: bool)

  /** What the filesystem reports: whether the target passes `access` with
      R_OK | W_OK, the resource file's bytes (when it can be accessed and
      read), the target's bytes (when it can be read), whether `writeFile`
      succeeds. */
  datatype CliFiles = CliFiles(targetAccessible: bool, resource: Option<Bytes>, contents: Option<Bytes>, writable: bool)

  /** How `main` ends: after printing the header, with an explicit exit
      code, or by returning after writing the new image. */
  datatype CliOutcome = PrintedHeader | Exited(code: nat) | Wrote(image: Bytes)

  /** The process exit status of each outcome. */
  function ExitCode(o: CliOutcome): (c: nat)
    ensures c == 0 <==> o.PrintedHeader? || o.Wrote? || o == Exited(0)
  {
    match o
    case PrintedHeader => 0
    case Exited(c) => c
    case Wrote(_) => 0
  }

  /** The segment `main` passes on: commander's default when the flag is
      absent, otherwise whatever was given, even an empty name. */
  function SegmentArgument(options: CommanderOptions): (s: string)
    ensures options.machoSegmentName.None? ==> s == DefaultSegment
    ensures options.machoSegmentName.Some? ==> s == options.machoSegmentName.value
  {
    match options.machoSegmentName
    case None => DefaultSegment
    case Some(s) => s
  }

  /** The injector call `main` makes, if it gets that far. */
  function CliCall(rejects: ExecutableFormat -> bool, resourceName: string, options: CommanderOptions,
                   files: CliFiles, probes: Probes)
    : (c: Option<(Bytes, Request)>)
    ensures c.None?
            <==> (|| options.outputApiHeader || !files.targetAccessible || files.resource.None?
                  || files.contents.None?
                  || rejects(DetectFormat(files.contents.value, probes))
                  || DetectFormat(files.contents.value, probes) == Unknown)
    ensures c.Some? ==> files.contents == Some(c.value.0)
    ensures c.Some? ==> c.value.1.data == files.resource.value && c.value.1.overwrite == options.overwrite
    ensures c.Some? && c.value.1.MachORequest? ==> c.value.1.segment == SegmentArgument(options)
  {
    if options.outputApiHeader || !files.targetAccessible || files.resource.None? || files.contents.None? then None
    else
      var exe := files.contents.value;
      var format := DetectFormat(exe, probes);
      if rejects(format) then None
      else
        match RequestFor(format, resourceName, SegmentArgument(options), files.resource.value, options.overwrite)
        case None => None
        case Some(q) => Some((exe, q))
  }

  /** `main`, for a given reading of the format guard. */
  function MainWith(rejects: ExecutableFormat -> bool, resourceName: string, options: CommanderOptions,
                    files: CliFiles, probes: Probes, injector: (Bytes, Request) -> InjectResult)
    : (r: CliOutcome)
    ensures options.outputApiHeader <==> r == PrintedHeader
    ensures !options.outputApiHeader && (!files.targetAccessible || files.resource.None? || files.contents.None?)
            ==> r == Exited(1)
    ensures var c := CliCall(rejects, resourceName, options, files, probes);
            && (r.Wrote? <==> c.Some? && injector(c.value.0, c.value.1).kind == Success && files.writable)
            && (r.Wrote? ==> r.image == injector(c.value.0, c.value.1).output)
            && (r == Exited(2) <==> c.Some? && injector(c.value.0, c.value.1).kind == AlreadyExists)
    ensures r == Exited(3)
            <==> (&& !options.outputApiHeader && files.targetAccessible && files.resource.Some?
                  && files.contents.Some? && !rejects(DetectFormat(files.contents.value, probes))
                  && var c := CliCall(rejects, resourceName, options, files, probes);
                     (c.None? || injector(c.value.0, c.value.1).kind == Error))
    ensures r.Exited? ==> r.code in {1, 2, 3}
  {
    if options.outputApiHeader then PrintedHeader
    else if !files.targetAccessible || files.resource.None? || files.contents.None? then Exited(1)
    else
      var exe := files.contents.value;
      var format := DetectFormat(exe, probes);
      if rejects(format) then Exited(1)
      else
        var result := SwitchResult(exe, format, resourceName, SegmentArgument(options), files.resource.value,
                                   options.overwrite, injector);
        if result.Some? && result.value.kind == AlreadyExists then Exited(2)
        else if result.None? || result.value.kind != Success then Exited(3)
        else if !files.writable then Exited(1)
        else Wrote(result.value.output)
  }

  /** `main` as written: kUnknown gets past the guard, matches no case of
      the `switch` and exits with 3, the code for a failed injection. */
  function MainAsWritten(resourceName: string, options: CommanderOptions, files: CliFiles, probes: Probes,
                         injector: (Bytes, Request) -> InjectResult)
    : (r: CliOutcome)
    ensures !options.outputApiHeader && files.targetAccessible && files.resource.Some? && files.contents.Some?
            && DetectFormat(files.contents.value, probes) == Unknown
            ==> r == Exited(3)
  {
    MainWith(NeverRejects, resourceName, options, files, probes, injector)
  }

  /** `main` with the guard refusing kUnknown: exit code 3 then means the
      injector itself reported an error. */
  function Main(resourceName: string, options: CommanderOptions, files: CliFiles, probes: Probes,
                injector: (Bytes, Request) -> InjectResult)
    : (r: CliOutcome)
    ensures r == Exited(3)
            <==> var c := CliCall(RejectsUnknown, resourceName, options, files, probes);
                 c.Some? && injector(c.value.0, c.value.1).kind == Error
    ensures !options.outputApiHeader && files.targetAccessible && files.resource.Some? && files.contents.Some?
            && DetectFormat(files.contents.value, probes) == Unknown
            ==> r == Exited(1)
  {
    MainWith(RejectsUnknown, resourceName, options, files, probes, injector)
  }

  /** An image none of the probes recognises exits with 3 as written,
      where exit code 1 and the unsupported-format message are meant. */
  lemma UnknownFormatExitsThree(resourceName: string, options: CommanderOptions, files: CliFiles,
                                injector: (Bytes, Request) -> InjectResult)
    requires !options.outputApiHeader && files.targetAccessible && files.resource.Some? && files.contents.Some?
    ensures var none := Probes(_ => false, _ => false, _ => false);
            && MainAsWritten(resourceName, options, files, none, injector) == Exited(3)
            && Main(resourceName, options, files, none, injector) == Exited(1)
  {
  }

  /** The command line and the library agree: given the same files,
      options and injector, and a segment name that is not empty, `main`
      makes the same injector call as `inject` and writes exactly what
      `inject` writes. */
  lemma AgreesWithApi(resourceName: string, options: CommanderOptions, files: CliFiles, probes: Probes,
                      injector: (Bytes, Request) -> InjectResult)
    requires !options.outputApiHeader && files.resource.Some?
    requires options.machoSegmentName != Some("")
    ensures var apiOptions := Api.ApiOptions(options.machoSegmentName, Some(options.overwrite));
            var target := Api.Target(files.targetAccessible, files.contents, files.writable);
            && CliCall(RejectsUnknown, resourceName, options, files, probes)
               == Api.CallMade(RejectsUnknown, resourceName, files.resource, Some(apiOptions), target, probes)
            && var r := Main(resourceName, options, files, probes, injector);
               var a := Api.Inject(resourceName, files.resource, Some(apiOptions), target, probes, injector);
               && (r.Wrote? <==> a.Written?)
               && (r.Wrote? ==> r.image == a.image)
               && (r == Exited(2) <==> a.Thrown? && a.error.AlreadyPresent?)
  {
    var apiOptions := Api.ApiOptions(options.machoSegmentName, Some(options.overwrite));
    assert SegmentArgument(options) == Api.SegmentOption(Some(apiOptions));
    assert options.overwrite == Api.OverwriteOption(Some(apiOptions));
  }

  /** Where the two front-ends part ways: an empty `--macho-segment-name`
      reaches the injector as given, while `inject` replaces an empty name
      with the default. */
  lemma EmptySegmentNameDiffers()
    ensures SegmentArgument(CommanderOptions(Some(""), false, false)) == ""
    ensures Api.SegmentOption(Some(Api.ApiOptions(Some(""), None))) == DefaultSegment
  {
  }
}
