/**
 * Nation-name normalisation (nsapi/core.py).  The API treats names case
 * insensitively and reads a space and an underscore alike, so the client
 * compares names through `clean_format`; `Name` is a string whose equality
 * and hash go through that normal form.
 */
module Core {
  import opened Strings

  /** The page of a nation and of a region, to which the scripts append a cleaned name. */
  const NationLink := "https://www.nationstates.net/nation="
  const RegionLink := "https://www.nationstates.net/region="

  /** What `clean_format` does to one character. */
  function CleanChar(c: char): char {
    if c == ' ' then '_' else LowerChar(c)
  }

  /** `clean_format`: lower-case, then turn every space into an underscore.
      It works character by character: same length, each character cleaned. */
  function CleanFormat(s: string): (r: string)
    ensures |r| == |s|
    ensures forall i :: 0 <= i < |s| ==> r[i] == CleanChar(s[i])
  {
    LowerAt(s);
    ReplaceCharAt(Lower(s), ' ', '_');
    Replace(Lower(s), " ", "_")
  }

  /** `map(clean_format, names)`: the cleaned form of every name, in order. */
  function CleanAll(names: seq<string>): (r: seq<string>)
    ensures |r| == |names| && forall i :: 0 <= i < |names| ==> r[i] == CleanFormat(names[i])
  {
    seq(|names|, i requires 0 <= i < |names| => CleanFormat(names[i]))
  }

  /** A cleaned name has no space and no upper-case ASCII letter. */
  lemma CleanFormatShape(s: string)
    ensures ' ' !in CleanFormat(s)
    ensures forall c <- CleanFormat(s) :: !('A' <= c <= 'Z')
  {
  }

  /** Cleaning a cleaned name changes nothing. */
  lemma CleanFormatIdempotent(s: string)
    ensures CleanFormat(CleanFormat(s)) == CleanFormat(s)
  {
  }

  /** `same_nation`: the two names denote the same nation exactly when they
      agree character by character up to ASCII case and space-versus-underscore. */
  predicate SameNation(a: string, b: string): (r: bool)
    ensures r <==> |a| == |b| && forall i :: 0 <= i < |a| ==> CleanChar(a[i]) == CleanChar(b[i])
  {
    var ca, cb := CleanFormat(a), CleanFormat(b);
    assert ca == cb ==> forall i :: 0 <= i < |a| ==> CleanChar(a[i]) == ca[i] == cb[i] == CleanChar(b[i]);
    ca == cb
  }

  /** `same_nation` is an equivalence relation. */
  lemma SameNationEquivalence(a: string, b: string, c: string)
    ensures SameNation(a, a)
    ensures SameNation(a, b) ==> SameNation(b, a)
    ensures SameNation(a, b) && SameNation(b, c) ==> SameNation(a, c)
  {
  }

  /** A name is the same nation as its lower-case form and as its cleaned form. */
  lemma SameNationIgnoresCaseAndSpaces(s: string)
    ensures SameNation(s, Lower(s))
    ensures SameNation(s, CleanFormat(s))
  {
    LowerAt(s);
    CleanFormatIdempotent(s);
  }

  /** `Name`, a `str` subclass that keeps the text it was built from. */
  datatype Name = Name(raw: string)

  /** `Name.normal`: the plain-string normal form. */
  function Normal(s: string): string {
    CleanFormat(s)
  }

  /** `Name.__eq__` against any `str` (a `Name` is a `str` too): equal
      exactly when the texts agree up to ASCII case and space-versus-underscore. */
  predicate NameEquals(n: Name, other: string): (r: bool)
    ensures r <==> |n.raw| == |other| && forall i :: 0 <= i < |other| ==> CleanChar(n.raw[i]) == CleanChar(other[i])
  {
    assert Normal(n.raw) == Normal(other) <==> SameNation(n.raw, other);
    Normal(n.raw) == Normal(other)
  }

  /** Python's `hash` of a string, a fixed polynomial over the characters; the
      only property the client needs is that equal strings hash equally. */
  function StringHash(s: string): int
    decreases |s|
  {
    if s == [] then 0 else StringHash(s[..|s| - 1]) * 31 + s[|s| - 1] as int
  }

  /** `Name.__hash__`: the hash of the normal form. */
  function NameHash(n: Name): int {
    StringHash(Normal(n.raw))
  }

  /** A `Name` equals a string exactly when the two are the same nation. */
  lemma NameEqualsIsSameNation(n: Name, s: string)
    ensures NameEquals(n, s) <==> SameNation(n.raw, s)
    ensures NameEquals(n, s) <==> NameEquals(Name(s), n.raw)
  {
  }

  /** Equal names hash equally, so `Name`s work as dict keys and set members. */
  lemma EqualNamesHashEqually(a: Name, b: Name)
    requires NameEquals(a, b.raw)
    ensures NameHash(a) == NameHash(b)
  {
  }

  /** A `Name` equals its own normal form, e.g. `Name("Testlandia") == "testlandia"`. */
  lemma NameEqualsNormal(n: Name)
    ensures NameEquals(n, Normal(n.raw))
  {
    CleanFormatIdempotent(n.raw);
  }
}
