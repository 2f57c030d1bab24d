/**
  `SemanticVersion` (kodi_repo_bootstrap/repo/version.py): parsing a free-form
  version string, rendering it back, and the hand-written ordering `>` with
  the operators derived from it.
 */
module Versions {
  import opened Wrappers
  import opened Text

  /** The four fields set by `SemanticVersion.__init__`; `other` is the suffix. */
  datatype Version = Version(major: nat, minor: Option<nat>, patch: Option<nat>, other: Option<string>)

  /** The shapes the constructor can produce. */
  predicate WellFormed(v: Version)
  {
    && (v.patch.Some? ==> v.minor.Some?)
    && (v.other.Some? ==> v.other.value != "" && '\n' !in v.other.value)
  }

  // ---------------------------------------------------------------------------
  // Decimal digits (ASCII only)
  // ---------------------------------------------------------------------------

  predicate IsDigit(c: char)
  {
    '0' <= c <= '9'
  }

  predicate AllDigits(s: string)
  {
    forall i :: 0 <= i < |s| ==> IsDigit(s[i])
  }

  function DigitValue(c: char): nat
    requires IsDigit(c)
  {
    c as int - '0' as int
  }

  function DigitChar(d: nat): (c: char)
    requires d < 10
    ensures IsDigit(c) && DigitValue(c) == d
  {
    ('0' as int + d) as char
  }

  /** Python's `f"{n}"` for a non-negative integer: no leading zero except for `0` itself. */
  function NatToString(n: nat): (s: string)
    ensures s != [] && AllDigits(s)
    ensures s[0] == '0' <==> n == 0
    ensures n == 0 ==> s == "0"
    decreases n
  {
    if n < 10 then [DigitChar(n)] else NatToString(n / 10) + [DigitChar(n % 10)]
  }

  /** Python's `int(ds)` on a string of ASCII digits. */
  function DecimalValue(ds: string): nat
    requires AllDigits(ds)
    decreases |ds|
  {
    if ds == [] then 0 else DecimalValue(ds[..|ds| - 1]) * 10 + DigitValue(ds[|ds| - 1])
  }

  lemma {:induction false} DecimalValueOfNatToString(n: nat)
    ensures DecimalValue(NatToString(n)) == n
    decreases n
  {
    var s := NatToString(n);
    if n < 10 {
      assert s[..|s| - 1] == [];
    } else {
      assert s[..|s| - 1] == NatToString(n / 10);
      DecimalValueOfNatToString(n / 10);
    }
  }

  /** A digit string without a leading zero is the rendering of its own value. */
  lemma {:induction false} NatToStringOfDecimalValue(ds: string)
    requires ds != [] && AllDigits(ds) && ds[0] != '0'
    ensures DecimalValue(ds) > 0
    ensures NatToString(DecimalValue(ds)) == ds
    decreases |ds|
  {
    var p, d := ds[..|ds| - 1], DigitValue(ds[|ds| - 1]);
    if p == [] {
      assert ds == [ds[0]];
    } else {
      NatToStringOfDecimalValue(p);
      var n := DecimalValue(ds);
      assert n == DecimalValue(p) * 10 + d;
      assert n / 10 == DecimalValue(p) && n % 10 == d;
      assert DigitChar(d) == ds[|ds| - 1];
      assert ds == p + [ds[|ds| - 1]];
    }
  }

  /** The length of the maximal run of digits at the start of `s` (the greedy `\d*`). */
  function LeadingDigits(s: string): (n: nat)
    ensures n <= |s|
    ensures AllDigits(s[..n])
    ensures n < |s| ==> !IsDigit(s[n])
    decreases |s|
  {
    if s == [] || !IsDigit(s[0]) then 0 else 1 + LeadingDigits(s[1..])
  }

  // ---------------------------------------------------------------------------
  // Parsing: the regular expression of version.py:7-10 as a greedy scanner
  // ---------------------------------------------------------------------------

  /** What one numeric group `(0|[1-9]\d*)?` matched: its value and how many characters it took. */
  datatype Scanned = Scanned(value: Option<nat>, length: nat)

  /** The group `0|[1-9]\d*`, tried greedily and skipped (optional) when it cannot match. */
  function ScanNumber(s: string): (r: Scanned)
    ensures r.length <= |s|
  {
    if s != [] && s[0] == '0' then
      Scanned(Some(0), 1)
    else if s != [] && IsDigit(s[0]) then
      var n := LeadingDigits(s);
      Scanned(Some(DecimalValue(s[..n])), n)
    else
      Scanned(None, 0)
  }

  /**
    The group matches exactly when `s` starts with a digit; what it consumes is
    the canonical rendering of the value it yields, and unless that value is a
    lone `0` it stops only at a non-digit (greedy).
   */
  lemma ScanNumberSpec(s: string)
    ensures ScanNumber(s).value.None? <==> ScanNumber(s).length == 0
    ensures ScanNumber(s).value.None? <==> (s == [] || !IsDigit(s[0]))
    ensures ScanNumber(s).value.Some? ==> NatToString(ScanNumber(s).value.value) == s[..ScanNumber(s).length]
    ensures ScanNumber(s).value.Some? && s[0] != '0' ==>
              ScanNumber(s).length == |s| || !IsDigit(s[ScanNumber(s).length])
  {
    if s != [] && s[0] != '0' && IsDigit(s[0]) {
      NatToStringOfDecimalValue(s[..LeadingDigits(s)]);
    }
  }

  /** The optional separator `\.?`: how many characters it takes. */
  function SkipDot(s: string): nat
  {
    if s != [] && s[0] == '.' then 1 else 0
  }

  /** `$` also matches before a final newline, so a single final `'\n'` is never part of the match. */
  function DropFinalNewline(s: string): (t: string)
    ensures t == s || t + "\n" == s
  {
    if s != [] && s[|s| - 1] == '\n' then s[..|s| - 1] else s
  }

  /**
    Whether the regular expression matches at all: the string must start with a
    digit, and `.*` cannot cross a newline, so no newline may occur before the
    final one.
   */
  predicate Matches(s: string)
  {
    var t := DropFinalNewline(s);
    t != [] && IsDigit(t[0]) && '\n' !in t
  }

  /** The greedy match of `major \.? minor? \.? patch? other` on a string that starts with a digit. */
  function Scan(t: string): Version
    requires t != [] && IsDigit(t[0])
  {
    var major := ScanNumber(t);
    ScanMinor(major.value.value, t[major.length..])
  }

  /** `\.? minor?` and what follows, after the major number. */
  function ScanMinor(major: nat, u: string): Version
  {
    var i := SkipDot(u);
    var minor := ScanNumber(u[i..]);
    ScanPatch(major, minor.value, u[i + minor.length..])
  }

  /** `\.? patch? other`; the patch is kept only when there is a minor (version.py:24-29). */
  function ScanPatch(major: nat, minor: Option<nat>, w: string): Version
  {
    var j := SkipDot(w);
    var patch := ScanNumber(w[j..]);
    var rest := w[j + patch.length..];
    Version(major,
            minor,
            if minor.Some? then patch.value else None,
            if rest == "" then None else Some(rest))
  }

  /**
    `SemanticVersion(s)`: a string the expression does not match gives version 0. Digit
    groups are taken to be within the interpreter's limit on `int()` of a long string.
   */
  function Parse(s: string): (v: Version)
    ensures WellFormed(v)
    ensures !Matches(s) ==> v == Version(0, None, None, None)
    ensures v.other.Some? ==> EndsWith(DropFinalNewline(s), v.other.value)
  {
    var t := DropFinalNewline(s);
    if Matches(s) then ScanProperties(t); Scan(t) else Version(0, None, None, None)
  }

  lemma ScanProperties(t: string)
    requires t != [] && IsDigit(t[0]) && '\n' !in t
    ensures WellFormed(Scan(t))
    ensures Scan(t).other.Some? ==> EndsWith(t, Scan(t).other.value)
  {
    var major := ScanNumber(t);
    TailOfSlice(t, major.length);
    ScanMinorProperties(major.value.value, t[major.length..]);
  }

  lemma ScanMinorProperties(major: nat, u: string)
    requires '\n' !in u
    ensures WellFormed(ScanMinor(major, u))
    ensures ScanMinor(major, u).other.Some? ==> EndsWith(u, ScanMinor(major, u).other.value)
  {
    var i := SkipDot(u);
    var minor := ScanNumber(u[i..]);
    TailOfSlice(u, i + minor.length);
    ScanPatchProperties(major, minor.value, u[i + minor.length..]);
  }

  lemma ScanPatchProperties(major: nat, minor: Option<nat>, w: string)
    requires '\n' !in w
    ensures WellFormed(ScanPatch(major, minor, w))
    ensures ScanPatch(major, minor, w).other.Some? ==> EndsWith(w, ScanPatch(major, minor, w).other.value)
  {
    var j := SkipDot(w);
    var patch := ScanNumber(w[j..]);
    TailOfSlice(w, j + patch.length);
  }

  /** A tail of a string is a suffix of it, holds no character the string does not, and suffixes chain. */
  lemma TailOfSlice(t: string, c: nat)
    requires c <= |t|
    ensures EndsWith(t, t[c..])
    ensures forall x :: x !in t ==> x !in t[c..]
    ensures forall p :: EndsWith(t[c..], p) ==> EndsWith(t, p)
  {
    forall x | x in t[c..] ensures x in t {
      var k :| 0 <= k < |t[c..]| && t[c..][k] == x;
      assert t[c + k] == x;
    }
    forall p | EndsWith(t[c..], p) ensures EndsWith(t, p) {
      assert t[c..][|t[c..]| - |p|..] == t[|t| - |p|..];
    }
  }

  // ---------------------------------------------------------------------------
  // Rendering and equality
  // ---------------------------------------------------------------------------

  /** `SemanticVersion.__str__`: the patch is printed only inside a present minor. */
  function Str(v: Version): string
  {
    NatToString(v.major)
    + (if v.minor.Some? then "." + NatToString(v.minor.value) + PatchText(v.patch) else "")
    + SuffixText(v.other)
  }

  function PatchText(patch: Option<nat>): string
  {
    if patch.Some? then "." + NatToString(patch.value) else ""
  }

  function SuffixText(other: Option<string>): string
  {
    if other.Some? then other.value else ""
  }

  /** `__eq__`: two versions are equal when they render to the same string. */
  predicate Eq(a: Version, b: Version)
  {
    Str(a) == Str(b)
  }

  /** `__hash__`, given Python's `hash` on strings. */
  function Hash(v: Version, strHash: string -> int): int
  {
    strHash(Str(v))
  }

  // ---------------------------------------------------------------------------
  // Ordering
  // ---------------------------------------------------------------------------

  /** Python's `x <= y` on strings: lexicographic by code point. */
  predicate LexLe(x: string, y: string)
    decreases |x|
  {
    x == [] || (y != [] && (x[0] < y[0] || (x[0] == y[0] && LexLe(x[1..], y[1..]))))
  }

  /** `SemanticVersion.__gt__`, branch for branch. */
  predicate Gt(a: Version, b: Version)
  {
    if a.major != b.major then a.major > b.major
    else if a.minor.None? && b.minor.Some? then false
    else if a.minor.Some? && b.minor.None? then true
    else if a.minor.Some? && b.minor.Some? && a.minor.value != b.minor.value then a.minor.value > b.minor.value
    else if a.patch.None? && b.patch.Some? then false
    else if a.patch.Some? && b.patch.None? then true
    else if a.patch.Some? && b.patch.Some? && a.patch.value != b.patch.value then a.patch.value > b.patch.value
    else if a.other.None? && b.other.Some? then false
    else if a.other.Some? && b.other.None? then true
    // `sorted((x, y))[0] == x`: the stable sort keeps `x` first exactly when `x <= y`
    else if a.other.Some? && b.other.Some? then LexLe(a.other.value, b.other.value)
    else false
  }

  /** `__ge__`. */
  predicate Ge(a: Version, b: Version)
  {
    Eq(a, b) || Gt(a, b)
  }

  /** `__lt__`, derived from `__ge__`. */
  predicate Lt(a: Version, b: Version)
  {
    !Ge(a, b)
  }

  /** `__le__`, derived from `__eq__` and `__lt__`. */
  predicate Le(a: Version, b: Version)
  {
    Eq(a, b) || Lt(a, b)
  }

  // ---------------------------------------------------------------------------
  // A reference ordering: lexicographic over (major, minor, patch, suffix),
  // an absent field below a present one, and suffixes in reverse string order
  // ---------------------------------------------------------------------------

  /** Strict string order `x < y`. */
  predicate LexLt(x: string, y: string)
  {
    LexLe(x, y) && x != y
  }

  predicate NumberAbove(x: Option<nat>, y: Option<nat>)
  {
    x.Some? && (y.None? || x.value > y.value)
  }

  predicate SuffixAbove(x: Option<string>, y: Option<string>)
  {
    x.Some? && (y.None? || LexLt(x.value, y.value))
  }

  /** `a` is strictly above `b` in the reference order. */
  predicate Above(a: Version, b: Version)
  {
    || a.major > b.major
    || (a.major == b.major && NumberAbove(a.minor, b.minor))
    || (a.major == b.major && a.minor == b.minor && NumberAbove(a.patch, b.patch))
    || (a.major == b.major && a.minor == b.minor && a.patch == b.patch && SuffixAbove(a.other, b.other))
  }

  lemma {:induction false} LexLeTotal(x: string, y: string)
    ensures LexLe(x, y) || LexLe(y, x)
    decreases |x|
  {
    if x != [] && y != [] && x[0] == y[0] {
      LexLeTotal(x[1..], y[1..]);
    }
  }

  lemma {:induction false} LexLeAntisymmetric(x: string, y: string)
    requires LexLe(x, y) && LexLe(y, x)
    ensures x == y
    decreases |x|
  {
    if x != [] {
      LexLeAntisymmetric(x[1..], y[1..]);
      assert x == [x[0]] + x[1..] && y == [y[0]] + y[1..];
    }
  }

  lemma {:induction false} LexLeTransitive(x: string, y: string, z: string)
    requires LexLe(x, y) && LexLe(y, z)
    ensures LexLe(x, z)
    decreases |x|
  {
    if x != [] && x[0] == y[0] && y[0] == z[0] {
      LexLeTransitive(x[1..], y[1..], z[1..]);
    }
  }

  /** The source's `>` is the reference order plus `v > v` for every version that has a suffix. */
  lemma GtIsAboveOrSelfWithSuffix(a: Version, b: Version)
    ensures Gt(a, b) <==> Above(a, b) || (a == b && a.other.Some?)
  {
    if a.major == b.major && a.minor == b.minor && a.patch == b.patch && a.other.Some? && b.other.Some? {
      if a.other.value != b.other.value {
        assert Gt(a, b) <==> LexLt(a.other.value, b.other.value);
      } else {
        assert a == b;
        LexLeReflexive(a.other.value);
      }
    }
  }

  lemma {:induction false} LexLeReflexive(x: string)
    ensures LexLe(x, x)
    decreases |x|
  {
    if x != [] {
      LexLeReflexive(x[1..]);
    }
  }

  lemma AboveIrreflexive(a: Version)
    ensures !Above(a, a)
  {
  }

  lemma AboveAsymmetric(a: Version, b: Version)
    requires Above(a, b)
    ensures !Above(b, a)
  {
    if a.major == b.major && a.minor == b.minor && a.patch == b.patch && Above(b, a) {
      LexLeAntisymmetric(a.other.value, b.other.value);
    }
  }

  lemma AboveTransitive(a: Version, b: Version, c: Version)
    requires Above(a, b) && Above(b, c)
    ensures Above(a, c)
  {
    if a.major == b.major == c.major && a.minor == b.minor == c.minor && a.patch == b.patch == c.patch {
      if c.other.Some? {
        LexLeTransitive(a.other.value, b.other.value, c.other.value);
        if a.other.value == c.other.value {
          LexLeAntisymmetric(a.other.value, b.other.value);
        }
      }
    }
  }

  lemma AboveTotal(a: Version, b: Version)
    ensures a == b || Above(a, b) || Above(b, a)
  {
    if a.major == b.major && a.minor == b.minor && a.patch == b.patch && a.other.Some? && b.other.Some? {
      LexLeTotal(a.other.value, b.other.value);
    }
  }

  // ---------------------------------------------------------------------------
  // Properties of the source's operators
  // ---------------------------------------------------------------------------

  /** `v > v` holds exactly when `v` has a suffix: `>` is irreflexive only on suffix-free versions. */
  lemma GtSelf(v: Version)
    ensures Gt(v, v) <==> v.other.Some?
  {
    GtIsAboveOrSelfWithSuffix(v, v);
  }

  /** For two different versions exactly one of `a > b` and `b > a` holds. */
  lemma GtTrichotomy(a: Version, b: Version)
    requires a != b
    ensures Gt(a, b) != Gt(b, a)
  {
    GtIsAboveOrSelfWithSuffix(a, b);
    GtIsAboveOrSelfWithSuffix(b, a);
    AboveTotal(a, b);
    if Above(a, b) {
      AboveAsymmetric(a, b);
    }
  }

  lemma GtTransitive(a: Version, b: Version, c: Version)
    requires Gt(a, b) && Gt(b, c)
    ensures Gt(a, c)
  {
    GtIsAboveOrSelfWithSuffix(a, b);
    GtIsAboveOrSelfWithSuffix(b, c);
    GtIsAboveOrSelfWithSuffix(a, c);
    if Above(a, b) && Above(b, c) {
      AboveTransitive(a, b, c);
    }
  }

  /** Versions that render differently are different, so `>` decides them one way. */
  lemma RenderedDifferentlyTrichotomy(a: Version, b: Version)
    requires !Eq(a, b)
    ensures Gt(a, b) != Gt(b, a)
  {
    GtTrichotomy(a, b);
  }

  /**
    On versions that render differently the derived operators are the expected
    ones: `a < b` and `a <= b` hold exactly when `b > a`, and `a >= b` exactly
    when `a > b`.
   */
  lemma DerivedOperators(a: Version, b: Version)
    requires !Eq(a, b)
    ensures Lt(a, b) <==> Gt(b, a)
    ensures Le(a, b) <==> Gt(b, a)
    ensures Ge(a, b) <==> Gt(a, b)
  {
    GtTrichotomy(a, b);
  }

  /** `__le__` is the negation of `__gt__` except on equal renderings, where it always holds. */
  lemma LeIsNotGtOrEq(a: Version, b: Version)
    ensures Le(a, b) <==> Eq(a, b) || !Gt(a, b)
  {
  }

  /** `__hash__` agrees with `__eq__`. */
  lemma HashRespectsEq(a: Version, b: Version, strHash: string -> int)
    requires Eq(a, b)
    ensures Hash(a, strHash) == Hash(b, strHash)
  {
  }

  // ---------------------------------------------------------------------------
  // Parsing and rendering
  // ---------------------------------------------------------------------------

  lemma ScanNumberOfNatToString(n: nat, rest: string)
    requires rest == [] || !IsDigit(rest[0])
    ensures ScanNumber(NatToString(n) + rest) == Scanned(Some(n), |NatToString(n)|)
  {
    var d := NatToString(n);
    var s := d + rest;
    assert s[..|d|] == d;
    if n != 0 {
      LeadingDigitsOfDigits(d, rest);
      DecimalValueOfNatToString(n);
    }
  }

  /** The digit run at the front of `d + rest` is exactly `d` when `rest` does not start with a digit. */
  lemma {:induction false} LeadingDigitsOfDigits(d: string, rest: string)
    requires AllDigits(d)
    requires rest == [] || !IsDigit(rest[0])
    ensures LeadingDigits(d + rest) == |d|
  {
    if d != [] {
      assert (d + rest)[1..] == d[1..] + rest;
      LeadingDigitsOfDigits(d[1..], rest);
    } else {
      assert d + rest == rest;
    }
  }

  /** A suffix that cannot be mistaken for more of the numeric part or for a separator. */
  predicate PlainSuffix(other: Option<string>)
  {
    other.Some? && other.value != "" ==> !IsDigit(other.value[0]) && other.value[0] != '.'
  }

  /**
    Rendering then parsing gives back the version, for every version the
    constructor can produce whose suffix does not start with a digit or a dot.
    So `str(SemanticVersion(s)) == s` for every `s` of the form `M`, `M.m` or
    `M.m.p` without leading zeros followed by such a suffix.
   */
  lemma ParseStr(v: Version)
    requires WellFormed(v) && PlainSuffix(v.other)
    ensures Parse(Str(v)) == v
  {
    var o := if v.other.Some? then v.other.value else "";
    var M := NatToString(v.major);
    var r1 := Str(v)[|M|..];
    assert Str(v) == M + r1;
    ScanNumberOfNatToString(v.major, r1);
    NoNewlineInStr(v);
    ScanMinorOfRendering(v);
  }

  /** A rendering holds no newline and starts with a digit, so the expression matches it. */
  lemma NoNewlineInStr(v: Version)
    requires WellFormed(v)
    ensures '\n' !in Str(v) && IsDigit(Str(v)[0])
    ensures DropFinalNewline(Str(v)) == Str(v)
  {
    var M := NatToString(v.major);
    var mid := if v.minor.Some? then "." + NatToString(v.minor.value) + PatchText(v.patch) else "";
    assert Str(v) == M + mid + SuffixText(v.other);
    assert '\n' !in M && '\n' !in PatchText(v.patch);
    assert '\n' !in mid;
  }

  /** What follows the major number in a rendering scans back to the minor, patch and suffix. */
  lemma ScanMinorOfRendering(v: Version)
    requires WellFormed(v) && PlainSuffix(v.other)
    ensures ScanMinor(v.major, Str(v)[|NatToString(v.major)|..]) == v
  {
    var rest := PatchText(v.patch) + SuffixText(v.other);
    RestOfRendering(v);
    ScanPatchOfRendering(v);
    if v.minor.Some? {
      PatchTextStart(v.patch, SuffixText(v.other));
      ScanMinorPresent(v.major, v.minor.value, rest);
      Associative("." + NatToString(v.minor.value), PatchText(v.patch), SuffixText(v.other));
    } else {
      ScanMinorAbsent(v.major, SuffixText(v.other));
    }
  }

  lemma RestOfRendering(v: Version)
    ensures Str(v)[|NatToString(v.major)|..]
            == (if v.minor.Some? then "." + NatToString(v.minor.value) + PatchText(v.patch) else "")
               + SuffixText(v.other)
  {
  }

  /** After the minor comes either a dot or the suffix. */
  lemma PatchTextStart(patch: Option<nat>, o: string)
    requires o == [] || (!IsDigit(o[0]) && o[0] != '.')
    ensures var w := PatchText(patch) + o; w == [] || !IsDigit(w[0])
  {
  }

  lemma DotPieces(n: nat, rest: string)
    ensures ("." + NatToString(n) + rest)[1..] == NatToString(n) + rest
    ensures ("." + NatToString(n) + rest)[1 + |NatToString(n)|..] == rest
  {
  }

  lemma ScanMinorStep(major: nat, u: string, minor: nat, l: nat, rest: string)
    requires SkipDot(u) == 1 && ScanNumber(u[1..]) == Scanned(Some(minor), l)
    requires 1 + l <= |u| && u[1 + l..] == rest
    ensures ScanMinor(major, u) == ScanPatch(major, Some(minor), rest)
  {
  }

  lemma ScanMinorPresent(major: nat, minor: nat, rest: string)
    requires rest == [] || !IsDigit(rest[0])
    ensures ScanMinor(major, "." + NatToString(minor) + rest) == ScanPatch(major, Some(minor), rest)
  {
    DotPieces(minor, rest);
    ScanNumberOfNatToString(minor, rest);
    ScanMinorStep(major, "." + NatToString(minor) + rest, minor, |NatToString(minor)|, rest);
  }

  lemma ScanMinorAbsent(major: nat, u: string)
    requires u == [] || (!IsDigit(u[0]) && u[0] != '.')
    ensures ScanMinor(major, u) == ScanPatch(major, None, u)
  {
    assert u[0..] == u;
  }

  lemma ScanPatchOfRendering(v: Version)
    requires WellFormed(v) && PlainSuffix(v.other)
    ensures ScanPatch(v.major, v.minor, PatchText(v.patch) + SuffixText(v.other)) == v
  {
    var o := SuffixText(v.other);
    if v.patch.Some? {
      DotPieces(v.patch.value, o);
      ScanNumberOfNatToString(v.patch.value, o);
      ScanPatchStep(v.major, v.minor, "." + NatToString(v.patch.value) + o, v.patch.value, |NatToString(v.patch.value)|, o);
    } else {
      ScanPatchAbsent(v.major, v.minor, o);
    }
  }

  lemma ScanPatchStep(major: nat, minor: Option<nat>, w: string, patch: nat, l: nat, o: string)
    requires SkipDot(w) == 1 && ScanNumber(w[1..]) == Scanned(Some(patch), l)
    requires 1 + l <= |w| && w[1 + l..] == o
    ensures ScanPatch(major, minor, w)
            == Version(major, minor, if minor.Some? then Some(patch) else None, if o == "" then None else Some(o))
  {
  }

  lemma ScanPatchAbsent(major: nat, minor: Option<nat>, o: string)
    requires o == [] || (!IsDigit(o[0]) && o[0] != '.')
    ensures ScanPatch(major, minor, o) == Version(major, minor, None, if o == "" then None else Some(o))
  {
    assert o[0..] == o;
  }

  /** The same round trip seen from the string: a canonical version string is rendered back verbatim. */
  lemma StrParseCanonical(v: Version)
    requires WellFormed(v) && PlainSuffix(v.other)
    ensures Str(Parse(Str(v))) == Str(v)
  {
    ParseStr(v);
  }

  /** A string that does not start with a digit is version `0` and renders as `"0"`; its text is not kept. */
  lemma ParseNonNumeric(s: string)
    requires s == [] || !IsDigit(s[0])
    ensures Parse(s) == Version(0, None, None, None)
    ensures Str(Parse(s)) == "0"
  {
    if s != [] && s[|s| - 1] == '\n' && |s| > 1 {
      assert DropFinalNewline(s)[0] == s[0];
    }
  }

  // ---------------------------------------------------------------------------
  // The quirks, on concrete strings
  // ---------------------------------------------------------------------------

  lemma ParseOfRendering(v: Version, s: string)
    requires WellFormed(v) && PlainSuffix(v.other) && Str(v) == s
    ensures Parse(s) == v
  {
    ParseStr(v);
  }

  lemma SingleDigit(n: nat)
    requires n < 10
    ensures NatToString(n) == [DigitChar(n)]
  {
  }

  lemma Parse120()
    ensures Parse("1.2.0") == Version(1, Some(2), Some(0), None)
  {
    SingleDigit(0); SingleDigit(1); SingleDigit(2);
    ParseOfRendering(Version(1, Some(2), Some(0), None), "1.2.0");
  }

  lemma Parse12()
    ensures Parse("1.2") == Version(1, Some(2), None, None)
  {
    SingleDigit(1); SingleDigit(2);
    ParseOfRendering(Version(1, Some(2), None, None), "1.2");
  }

  lemma Parse200()
    ensures Parse("2.0.0") == Version(2, Some(0), Some(0), None)
  {
    SingleDigit(0); SingleDigit(2);
    ParseOfRendering(Version(2, Some(0), Some(0), None), "2.0.0");
  }

  lemma Parse199()
    ensures Parse("1.9.9") == Version(1, Some(9), Some(9), None)
  {
    SingleDigit(1); SingleDigit(9);
    ParseOfRendering(Version(1, Some(9), Some(9), None), "1.9.9");
  }

  lemma Parse10a()
    ensures Parse("1.0a") == Version(1, Some(0), None, Some("a"))
  {
    SingleDigit(0); SingleDigit(1);
    ParseOfRendering(Version(1, Some(0), None, Some("a")), "1.0a");
  }

  lemma Parse10b()
    ensures Parse("1.0b") == Version(1, Some(0), None, Some("b"))
  {
    SingleDigit(0); SingleDigit(1);
    ParseOfRendering(Version(1, Some(0), None, Some("b")), "1.0b");
  }

  /** A present patch beats an absent one: `"1.2.0" > "1.2"` and not the other way round. */
  lemma PresentPatchIsGreater()
    ensures Gt(Parse("1.2.0"), Parse("1.2")) && !Gt(Parse("1.2"), Parse("1.2.0"))
    ensures Gt(Parse("2.0.0"), Parse("1.9.9"))
  {
    Parse120();
    Parse12();
    Parse200();
    Parse199();
  }

  /**
    The suffix tie-break is inverted: of `"1.0a"` and `"1.0b"` the alphabetically
    smaller suffix is the greater version, and a version with a suffix is greater than itself.
   */
  lemma SuffixTieBreakInverted()
    ensures Gt(Parse("1.0a"), Parse("1.0b")) && !Gt(Parse("1.0b"), Parse("1.0a"))
    ensures Gt(Parse("1.0a"), Parse("1.0a"))
  {
    Parse10a();
    Parse10b();
    SuffixesCompared(Version(1, Some(0), None, Some("a")), Version(1, Some(0), None, Some("b")));
  }

  lemma SuffixesCompared(a: Version, b: Version)
    requires a == Version(1, Some(0), None, Some("a")) && b == Version(1, Some(0), None, Some("b"))
    ensures Gt(a, b) && !Gt(b, a) && Gt(a, a)
  {
    assert LexLe("a", "b") && !LexLe("b", "a") && LexLe("a", "a");
  }

  lemma ScanMinorMissing(major: nat, u: string)
    requires SkipDot(u) == 1 && (u[1..] == [] || !IsDigit(u[1]))
    ensures ScanMinor(major, u) == ScanPatch(major, None, u[1..])
  {
    assert u[1..][0..] == u[1..];
  }

  lemma ParseIsScan(s: string)
    requires s != [] && IsDigit(s[0]) && '\n' !in s
    ensures Parse(s) == Scan(s)
  {
    assert s[|s| - 1] in s;
    assert DropFinalNewline(s) == s;
    assert Matches(s);
  }

  /** The text after the major number of `"M..p" + o`: the minor is missing, so the patch is skipped. */
  lemma ScanMinorOfDoubleDot(major: nat, p: nat, o: string)
    requires o == [] || !IsDigit(o[0])
    ensures ScanMinor(major, "." + ("." + NatToString(p) + o))
            == Version(major, None, None, if o == "" then None else Some(o))
  {
    var w := "." + NatToString(p) + o;
    var u := "." + w;
    assert u[1..] == w;
    ScanMinorMissing(major, u);
    DotPieces(p, o);
    ScanNumberOfNatToString(p, o);
    ScanPatchStep(major, None, w, p, |NatToString(p)|, o);
  }

  lemma NoNewlineInDoubleDot(major: nat, p: nat, o: string)
    requires '\n' !in o
    ensures '\n' !in NatToString(major) + ("." + ("." + NatToString(p) + o))
  {
    assert '\n' !in NatToString(major);
    assert '\n' !in NatToString(p);
  }

  /**
    Digits read as a patch after a missing minor are dropped: `"M..p" + o` parses as
    major `M` with suffix `o`, the `p` lost (version.py:24-29 keeps a patch only after a minor).
   */
  lemma PatchWithoutMinorDropped(major: nat, p: nat, o: string)
    requires o == [] || !IsDigit(o[0])
    requires '\n' !in o
    ensures Parse(NatToString(major) + ("." + ("." + NatToString(p) + o)))
            == Version(major, None, None, if o == "" then None else Some(o))
  {
    var u := "." + ("." + NatToString(p) + o);
    var s := NatToString(major) + u;
    NoNewlineInDoubleDot(major, p, o);
    ParseIsScan(s);
    ScanNumberOfNatToString(major, u);
    assert s[|NatToString(major)|..] == u;
    ScanMinorOfDoubleDot(major, p, o);
  }

  /** The instance `"1..2"`: version `"1"`. */
  lemma OneDotDotTwo(s: string)
    requires s == "1..2"
    ensures Parse(s) == Version(1, None, None, None)
    ensures Str(Parse(s)) == "1"
  {
    SingleDigit(1);
    SingleDigit(2);
    assert s == NatToString(1) + ("." + ("." + NatToString(2) + ""));
    PatchWithoutMinorDropped(1, 2, "");
  }

  lemma RendersAsOneThree()
    ensures Str(Version(1, None, None, Some(".3"))) == Str(Version(1, Some(3), None, None))
    ensures Gt(Version(1, Some(3), None, None), Version(1, None, None, Some(".3")))
  {
    SingleDigit(1);
    SingleDigit(3);
  }

  /**
    `==` and `>` disagree on versions that render alike but were parsed differently:
    `y == "1..2.3"` renders as `"1.3"`, equal to `x == "1.3"`, yet `x` is greater than `y`.
   */
  lemma EqualButGreater(x: string, y: string)
    requires x == "1.3" && y == "1..2.3"
    ensures Str(Parse(y)) == x
    ensures Eq(Parse(x), Parse(y))
    ensures Gt(Parse(x), Parse(y))
  {
    ParseOneDotDotTwoDotThree(y);
    ParseOneDotThree(x);
    RendersAsOneThree();
  }

  lemma ParseOneDotDotTwoDotThree(y: string)
    requires y == "1..2.3"
    ensures Parse(y) == Version(1, None, None, Some(".3"))
  {
    SingleDigit(1);
    SingleDigit(2);
    assert y == NatToString(1) + ("." + ("." + NatToString(2) + ".3"));
    PatchWithoutMinorDropped(1, 2, ".3");
  }

  lemma ParseOneDotThree(x: string)
    requires x == "1.3"
    ensures Parse(x) == Version(1, Some(3), None, None)
  {
    SingleDigit(1);
    SingleDigit(3);
    ParseOfRendering(Version(1, Some(3), None, None), x);
  }
}
