/** `main` in postject.py: the older command-line front-end.  It prints the
    API header when `--output-api-header` appears anywhere in the argument
    vector, detects the format (PE first), normalises the name the same
    way as the JavaScript front-ends, and maps the injector's verdict to an
    exit code.  The injectors are oracles returning the verdict; argparse,
    console output and file handling are not modelled. */
module PyMain {
  import opened Basics
  import opened Postject
  import opened Frontend
  import opened PyInjector

  /** How `main` ends, with the injector call it made, if any. */
  datatype PyExit = PyExit(code: nat, request: Option<Request>)

  const HeaderFlag: string := "--output-api-header"

  /** `main`: `segment` and `overwrite` are the values argparse produced
      (the segment defaults to `__POSTJECT`); `injector` is the verdict of
      the chosen `inject_into_*` function. */
  function Main(argv: seq<string>, resourceName: string, segment: string, overwrite: bool, exe: Bytes,
                data: Bytes, probes: Probes, injector: Request -> bool)
    : (r: PyExit)
    ensures HeaderFlag in argv ==> r == PyExit(0, None)
    ensures r.request.Some? <==> HeaderFlag !in argv && PyDetectFormat(exe, probes).Some?
    ensures r.request.Some?
            ==> r.request == RequestFor(PyDetectFormat(exe, probes).value, resourceName, segment, data, overwrite)
    ensures r.code == 1 <==> HeaderFlag !in argv && PyDetectFormat(exe, probes).None?
    ensures r.code == 2 <==> r.request.Some? && !injector(r.request.value)
    ensures r.code == 0 <==> HeaderFlag in argv || (r.request.Some? && injector(r.request.value))
    ensures r.code in {0, 1, 2}
  {
    if HeaderFlag in argv then PyExit(0, None)
    else
      match PyDetectFormat(exe, probes)
      case None => PyExit(1, None)
      case Some(format) =>
        var q := RequestFor(format, resourceName, segment, data, overwrite).value;
        PyExit(if injector(q) then 0 else 2, Some(q))
  }

  /** The header flag wins wherever it appears, even in the place of the
      resource name, and before the format is looked at. */
  lemma HeaderFlagShortCircuits(argv: seq<string>, segment: string, overwrite: bool, exe: Bytes, data: Bytes,
                                probes: Probes, injector: Request -> bool)
    requires |argv| >= 3 && argv[2] == HeaderFlag
    ensures Main(argv, argv[2], segment, overwrite, exe, data, probes, injector) == PyExit(0, None)
  {
  }

  /** On an image that is not also a PE image, the Python and the
      JavaScript front-ends pick the same format and hence make the same
      call. */
  lemma SameRequestAsJavaScript(argv: seq<string>, resourceName: string, segment: string, overwrite: bool,
                                exe: Bytes, data: Bytes, probes: Probes, injector: Request -> bool)
    requires HeaderFlag !in argv
    requires !probes.isPe(exe)
    ensures Main(argv, resourceName, segment, overwrite, exe, data, probes, injector).request
            == RequestFor(DetectFormat(exe, probes), resourceName, segment, data, overwrite)
  {
  }
}
