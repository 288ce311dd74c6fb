/** The Mach-O side of the runtime lookup header (postject-api.h): the
    options record, its initialiser, and how `postject_find_resource`
    chooses between the framework query and the segment query.  The loader
    calls `getsectdata` and `getsectdatafromFramework` are oracles; a null
    `const char*` is `None`, and the platform is a parameter standing for
    the preprocessor test on `__APPLE__` and `__MACH__`. */
module LookupApi {
  import opened Basics
  import opened Names

  /** `struct MachOOptions`. */
  datatype MachOOptions = MachOOptions(frameworkName: Option<string>, segmentName: Option<string>)

  /** The platform the header is compiled for. */
  datatype Platform = Apple | Other

  /** A query to the loader: `getsectdata(segment, name)` or
      `getsectdatafromFramework(framework, segment, name)`. */
  datatype Query =
    | SegmentQuery(segment: string, section: string)
    | FrameworkQuery(framework: string, frameworkSegment: Option<string>, section: string)

  /** What the loader returns: the section's address (none for null) and
      its size. */
  datatype Section = Section(address: Option<nat>, size: nat)

  /** What `postject_find_resource` produces: the returned pointer and the
      value it leaves in `*size` (none when it does not write it). */
  datatype Found = Found(pointer: Option<nat>, size: Option<nat>)

  /** `postject_macho_options_init`: both names null. */
  function OptionsInit(): (o: MachOOptions)
    ensures o.frameworkName.None? && o.segmentName.None?
  {
    MachOOptions(None, None)
  }

  /** The query `postject_find_resource` makes on Apple platforms for
      `name` and the (possibly null) options. */
  function SelectQuery(name: string, options: Option<MachOOptions>): (q: Query)
    ensures q.FrameworkQuery? <==> options.Some? && options.value.frameworkName.Some?
    ensures q.FrameworkQuery?
            ==> q == FrameworkQuery(options.value.frameworkName.value, options.value.segmentName, name)
    ensures q.SegmentQuery? && options.Some? && options.value.segmentName.Some?
            ==> q.segment == options.value.segmentName.value
    ensures q.SegmentQuery? && (options.None? || options.value.segmentName.None?) ==> q.segment == DefaultSegment
    ensures q.section == name
  {
    if options.Some? && options.value.frameworkName.Some? then
      FrameworkQuery(options.value.frameworkName.value, options.value.segmentName, name)
    else
      var segment := if options.Some? && options.value.segmentName.Some? then options.value.segmentName.value
                     else DefaultSegment;
      SegmentQuery(segment, name)
  }

  /** `postject_find_resource`: on Apple platforms, the loader's answer to
      the selected query, with its size stored; elsewhere null, with
      `*size` left alone. */
  function FindResource(platform: Platform, name: string, options: Option<MachOOptions>, loader: Query -> Section)
    : (r: Found)
    ensures platform == Other ==> r == Found(None, None)
    ensures platform == Apple ==> r.size.Some?
    ensures platform == Apple ==> r.pointer == loader(SelectQuery(name, options)).address
                                  && r.size == Some(loader(SelectQuery(name, options)).size)
  {
    match platform
    case Other => Found(None, None)
    case Apple =>
      var s := loader(SelectQuery(name, options));
      Found(s.address, Some(s.size))
  }

  /** Initialised options behave exactly like no options at all: the
      default segment, the name as given. */
  lemma InitialisedOptionsAreDefault(platform: Platform, name: string, loader: Query -> Section)
    ensures SelectQuery(name, Some(OptionsInit())) == SelectQuery(name, None) == SegmentQuery(DefaultSegment, name)
    ensures FindResource(platform, name, Some(OptionsInit()), loader) == FindResource(platform, name, None, loader)
  {
  }

  /** The lookup uses the name verbatim: unlike the injectors' front-ends it
      adds no `__` prefix, so a caller must pass the normalised section
      name to find what was injected under a bare name. */
  lemma LookupNameIsVerbatim(name: string, options: Option<MachOOptions>)
    requires !StartsWith(name, SectionPrefix)
    ensures SelectQuery(name, options).section != MachOSectionName(name)
    ensures SelectQuery(MachOSectionName(name), options).section == MachOSectionName(name)
  {
  }

  /** Once a framework is named, the segment is not defaulted: the
      framework query receives the caller's segment as it is, null
      included. */
  lemma FrameworkTakesPrecedence(name: string, framework: string, segment: Option<string>)
    ensures SelectQuery(name, Some(MachOOptions(Some(framework), segment))) == FrameworkQuery(framework, segment, name)
  {
  }
}
