/** Resource-name normalisation shared by the front-ends (src/api.js,
    src/main.js and `main` in postject.py): Mach-O section names carry a
    `__` prefix, PE resource names are upper case, ELF note names pass
    through.  Upper-casing is restricted to ASCII. */
module Names {

  /** The conventional Mach-O section-name prefix, also the prefix of the
      default segment name. */
  const SectionPrefix: string := "__"

  /** The Mach-O segment used when the caller names none. */
  const DefaultSegment: string := "__POSTJECT"

  predicate StartsWith(s: string, prefix: string) {
    |prefix| <= |s| && s[..|prefix|] == prefix
  }

  predicate IsLower(c: char) {
    'a' <= c <= 'z'
  }

  predicate IsUpper(c: char) {
    'A' <= c <= 'Z'
  }

  /** ASCII `toUpperCase` / `str.upper` on one character. */
  function UpperChar(c: char): (u: char)
    ensures !IsLower(u)
    ensures IsLower(c) ==> IsUpper(u) && u as int + 32 == c as int
    ensures !IsLower(c) ==> u == c
  {
    if IsLower(c) then (c as int - 32) as char else c
  }

  /** Mach-O section name: `name` with `__` prepended unless already there. */
  function MachOSectionName(name: string): (r: string)
    ensures StartsWith(r, SectionPrefix)
    ensures StartsWith(name, SectionPrefix) ==> r == name
    ensures !StartsWith(name, SectionPrefix) ==> |r| == |name| + 2 && r[2..] == name
  {
    if StartsWith(name, SectionPrefix) then name else SectionPrefix + name
  }

  /** PE resource name: `name` upper-cased (ASCII letters only). */
  function PeResourceName(name: string): (r: string)
    ensures |r| == |name|
    ensures forall i :: 0 <= i < |r| ==> !IsLower(r[i])
    ensures forall i :: 0 <= i < |r| ==> !IsLower(name[i]) ==> r[i] == name[i]
    ensures forall i :: 0 <= i < |name| && IsLower(name[i]) ==> IsUpper(r[i]) && r[i] as int == name[i] as int - 32
  {
    seq(|name|, i requires 0 <= i < |name| => UpperChar(name[i]))
  }

  /** ELF note name: unchanged, since a leading dot is reserved for the system. */
  function ElfNoteName(name: string): string {
    name
  }

  /** Normalising a Mach-O section name twice is the same as once. */
  lemma MachOSectionNameIdempotent(name: string)
    ensures MachOSectionName(MachOSectionName(name)) == MachOSectionName(name)
  {
  }

  /** Asking for `n` and for `__n` picks the same section exactly when `n`
      does not itself start with the prefix. */
  lemma MachOSectionNameAbsorbsPrefix(n: string)
    ensures MachOSectionName(n) == MachOSectionName(SectionPrefix + n)
        <==> !StartsWith(n, SectionPrefix)
  {
    var p := SectionPrefix + n;
    assert StartsWith(p, SectionPrefix) by { assert p[..2] == SectionPrefix; }
    if StartsWith(n, SectionPrefix) {
      assert |MachOSectionName(n)| != |MachOSectionName(p)|;
    }
  }

  /** A name is left alone by normalisation exactly when it already starts
      with the prefix. */
  lemma MachOSectionNameFixedPoints(n: string)
    ensures MachOSectionName(n) == n <==> StartsWith(n, SectionPrefix)
  {
    if !StartsWith(n, SectionPrefix) {
      assert |MachOSectionName(n)| != |n|;
    }
  }

  /** Upper-casing is idempotent and fixes exactly the names without
      lower-case ASCII letters. */
  lemma PeResourceNameIdempotent(name: string)
    ensures PeResourceName(PeResourceName(name)) == PeResourceName(name)
    ensures PeResourceName(name) == name <==> forall i :: 0 <= i < |name| ==> !IsLower(name[i])
  {
    var u := PeResourceName(name);
    if u == name {
      assert forall i :: 0 <= i < |name| ==> !IsLower(name[i]) by {
        forall i | 0 <= i < |name| ensures !IsLower(name[i]) {
          assert name[i] == u[i];
        }
      }
    }
  }

  /** Worked examples: "foobar" normalises to "FOOBAR" on PE and to "__foobar"
      on Mach-O, where "__foobar" itself is left alone. */
  lemma NormalisationExamples()
    ensures PeResourceName("foobar") == "FOOBAR"
    ensures MachOSectionName("foobar") == "__foobar"
    ensures MachOSectionName("__foobar") == "__foobar"
  {
    assert "__foobar"[..2] == SectionPrefix;
    assert !StartsWith("foobar", SectionPrefix) by { assert "foobar"[0] != '_'; }
    assert PeResourceName("foobar") == "FOOBAR" by {
      var u := PeResourceName("foobar");
      assert u[0] == 'F' && u[1] == 'O' && u[2] == 'O';
      assert u[3] == 'B' && u[4] == 'A' && u[5] == 'R';
    }
  }
}
