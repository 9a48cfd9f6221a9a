/** The package's version numbers (folding/__init__.py): `__version__` is a dotted string and
    `__spec_version__` packs its first three components into one integer,
    `10000 * major + 100 * minor + patch`. */
module Version {
  import opened Wrappers

  /** `__version__`. */
  const Current: string := "0.0.2"

  /** What `__spec_version__`'s evaluation can raise: indexing a missing component, or `int()`
      of a component that is not an integer literal. */
  datatype VersionError = IndexError | ValueError

  // ---------------------------------------------------------------------------------------
  // str.split(".")
  // ---------------------------------------------------------------------------------------

  /** Python's `s.split(".")`: every dot separates two pieces, empty pieces are kept, and there
      is always at least one piece. */
  function Split(s: string): (parts: seq<string>)
    ensures |parts| >= 1
    ensures forall i :: 0 <= i < |parts| ==> '.' !in parts[i]
    decreases |s|
  {
    if |s| == 0 then [""]
    else
      var rest := Split(s[1..]);
      if s[0] == '.' then [""] + rest
      else [[s[0]] + rest[0]] + rest[1..]
  }

  /** `".".join(parts)`, the inverse of Split. */
  function JoinDots(parts: seq<string>): (s: string)
    requires |parts| >= 1
  {
    if |parts| == 1 then parts[0] else parts[0] + "." + JoinDots(parts[1..])
  }

  /** Splitting and joining back gives the original string. */
  lemma {:induction false} JoinSplit(s: string)
    ensures JoinDots(Split(s)) == s
    decreases |s|
  {
    if |s| > 0 {
      var rest := Split(s[1..]);
      JoinSplit(s[1..]);
      if s[0] == '.' {
        assert Split(s) == [""] + rest;
        assert ([""] + rest)[1..] == rest;
      } else if |rest| > 1 {
        assert Split(s) == [[s[0]] + rest[0]] + rest[1..];
        assert ([[s[0]] + rest[0]] + rest[1..])[1..] == rest[1..];
        assert JoinDots(rest) == rest[0] + "." + JoinDots(rest[1..]);
      }
    }
  }

  /** A dot splits the string into the pieces of its two sides. */
  lemma {:induction false} SplitAtDot(a: string, b: string)
    ensures Split(a + "." + b) == Split(a) + Split(b)
    decreases |a|
  {
    if |a| == 0 {
      assert (a + "." + b)[1..] == b;
    } else {
      assert (a + "." + b)[1..] == a[1..] + "." + b;
      SplitAtDot(a[1..], b);
    }
  }

  /** A string without dots is one piece. */
  lemma {:induction false} SplitNoDot(a: string)
    requires '.' !in a
    ensures Split(a) == [a]
    decreases |a|
  {
    if |a| > 0 {
      assert '.' !in a[1..] by {
        forall i | 0 <= i < |a[1..]| ensures a[1..][i] != '.' {
          assert a[1..][i] == a[i + 1];
        }
      }
      SplitNoDot(a[1..]);
      assert [a[0]] + a[1..] == a;
    }
  }

  /** Splitting a join of dot-free pieces gives the pieces back. */
  lemma {:induction false} SplitJoin(parts: seq<string>)
    requires |parts| >= 1
    requires forall i :: 0 <= i < |parts| ==> '.' !in parts[i]
    ensures Split(JoinDots(parts)) == parts
    decreases |parts|
  {
    if |parts| == 1 {
      SplitNoDot(parts[0]);
    } else {
      SplitJoin(parts[1..]);
      SplitAtDot(parts[0], JoinDots(parts[1..]));
      SplitNoDot(parts[0]);
      assert [parts[0]] + parts[1..] == parts;
    }
  }

  // ---------------------------------------------------------------------------------------
  // int() on a base-10 string
  // ---------------------------------------------------------------------------------------

  /** The ASCII whitespace `int()` skips around the literal: space, tab, line feed, vertical
      tab, form feed, carriage return. */
  predicate IsSpace(c: char) {
    c == ' ' || 9 <= c as int <= 13
  }

  predicate IsDigit(c: char) {
    '0' <= c <= '9'
  }

  function DigitValue(c: char): (d: nat)
    requires IsDigit(c)
    ensures d < 10
  {
    c as int - '0' as int
  }

  function DigitChar(d: nat): (c: char)
    requires d < 10
    ensures IsDigit(c) && DigitValue(c) == d
  {
    ('0' as int + d) as char
  }

  /** Drops leading whitespace. */
  function TrimStart(s: string): (t: string)
    decreases |s|
  {
    if |s| > 0 && IsSpace(s[0]) then TrimStart(s[1..]) else s
  }

  /** Drops trailing whitespace. */
  function TrimEnd(s: string): (t: string)
    decreases |s|
  {
    if |s| > 0 && IsSpace(s[|s| - 1]) then TrimEnd(s[..|s| - 1]) else s
  }

  /** Trimming keeps every character that is not whitespace. */
  lemma {:induction false} TrimKeeps(s: string, c: char)
    requires c in s && !IsSpace(c)
    ensures c in TrimStart(s) && c in TrimEnd(s)
    decreases |s|
  {
    if IsSpace(s[0]) {
      assert s == [s[0]] + s[1..];
      TrimKeeps(s[1..], c);
    }
    if IsSpace(s[|s| - 1]) {
      assert s == s[..|s| - 1] + [s[|s| - 1]];
      TrimKeeps(s[..|s| - 1], c);
    }
  }

  /** A string without whitespace is left alone. */
  lemma TrimNoSpace(s: string)
    requires forall i :: 0 <= i < |s| ==> !IsSpace(s[i])
    ensures TrimEnd(TrimStart(s)) == s
  {
  }

  /** The digits of a decimal literal: ASCII digits, with single underscores allowed between
      two digits (`1_000`), none leading, trailing or doubled. */
  predicate WellFormedDigits(d: string) {
    && |d| > 0
    && IsDigit(d[0])
    && IsDigit(d[|d| - 1])
    && (forall i :: 0 <= i < |d| ==> IsDigit(d[i]) || d[i] == '_')
    && (forall i :: 0 <= i < |d| - 1 ==> d[i] == '_' ==> d[i + 1] != '_')
  }

  /** The number the digits spell, underscores skipped. */
  function DigitsValue(d: string): (n: nat)
    requires forall i :: 0 <= i < |d| ==> IsDigit(d[i]) || d[i] == '_'
  {
    if |d| == 0 then 0
    else if d[|d| - 1] == '_' then DigitsValue(d[..|d| - 1])
    else 10 * DigitsValue(d[..|d| - 1]) + DigitValue(d[|d| - 1])
  }

  /** The number of digits in `d`, underscores not counted. */
  function DigitCount(d: string): (n: nat)
    ensures n <= |d|
  {
    if |d| == 0 then 0
    else DigitCount(d[..|d| - 1]) + (if IsDigit(d[|d| - 1]) then 1 else 0)
  }

  /** CPython's default `sys.get_int_max_str_digits()`: `int()` and `str()` refuse decimal
      numbers with more digits than this. */
  const MaxStrDigits := 4300

  /** Digits `int()` converts: well formed, and no more of them than the limit. */
  predicate Convertible(d: string) {
    WellFormedDigits(d) && DigitCount(d) <= MaxStrDigits
  }

  /** Python's `int(s)` for a `str`: surrounding whitespace, an optional sign, then the
      digits. `None` is the `ValueError` it raises on anything else, including a literal with
      more than `MaxStrDigits` digits. */
  function ParseInt(s: string): (r: Option<int>) {
    var t := TrimEnd(TrimStart(s));
    if |t| > 0 && (t[0] == '+' || t[0] == '-') then
      if Convertible(t[1..]) then
        var n: int := DigitsValue(t[1..]);
        Some(if t[0] == '-' then -n else n)
      else None
    else if Convertible(t) then Some(DigitsValue(t))
    else None
  }

  /** `str(n)` for a natural number. */
  function ShowNat(n: nat): (s: string)
    ensures |s| > 0 && forall i :: 0 <= i < |s| ==> IsDigit(s[i])
  {
    if n < 10 then [DigitChar(n)] else ShowNat(n / 10) + [DigitChar(n % 10)]
  }

  /** `str(n)` for any integer. */
  function ShowInt(n: int): (s: string) {
    if n < 0 then "-" + ShowNat(-n) else ShowNat(n)
  }

  /** The number of decimal digits of `n`, sign not counted. */
  function DigitsOf(n: int): (k: nat) {
    |ShowNat(if n < 0 then -n else n)|
  }

  /** Every character of a printed natural number is a digit. */
  lemma {:induction false} ShowNatDigitCount(n: nat)
    ensures DigitCount(ShowNat(n)) == |ShowNat(n)|
  {
    if n >= 10 {
      var s := ShowNat(n);
      ShowNatDigitCount(n / 10);
      assert s[..|s| - 1] == ShowNat(n / 10);
    }
  }

  lemma {:induction false} ShowNatValue(n: nat)
    ensures DigitsValue(ShowNat(n)) == n
  {
    if n >= 10 {
      var s := ShowNat(n);
      ShowNatValue(n / 10);
      assert s[..|s| - 1] == ShowNat(n / 10);
    }
  }

  lemma ShowNatWellFormed(n: nat)
    ensures WellFormedDigits(ShowNat(n))
    ensures '.' !in ShowNat(n)
    ensures forall i :: 0 <= i < |ShowNat(n)| ==> !IsSpace(ShowNat(n)[i])
  {
    var s := ShowNat(n);
    assert forall i :: 0 <= i < |s| ==> s[i] != '.';
  }

  /** Well-formed digits, bare or behind a minus sign, parse to the number they spell, unless
      there are more of them than the limit, which `int()` refuses. */
  lemma {:induction false} ParseDigits(d: string)
    requires WellFormedDigits(d)
    ensures DigitCount(d) <= MaxStrDigits ==> ParseInt(d) == Some(DigitsValue(d))
    ensures DigitCount(d) <= MaxStrDigits ==> ParseInt("-" + d) == Some(-(DigitsValue(d) as int))
    ensures DigitCount(d) > MaxStrDigits ==> ParseInt(d) == None && ParseInt("-" + d) == None
  {
    assert forall i :: 0 <= i < |d| ==> !IsSpace(d[i]);
    TrimNoSpace(d);
    var m := "-" + d;
    assert forall i :: 0 <= i < |m| ==> !IsSpace(m[i]) by {
      forall i | 0 <= i < |m| ensures !IsSpace(m[i]) {
        if i > 0 { assert m[i] == d[i - 1]; }
      }
    }
    TrimNoSpace(m);
    assert m[1..] == d;
  }

  /** A printed integer has no dot. */
  lemma ShowIntNoDot(n: int)
    ensures '.' !in ShowInt(n)
  {
    var m := if n < 0 then -n else n;
    ShowNatWellFormed(m);
    if n < 0 {
      var s := ShowInt(n);
      assert forall i :: 0 <= i < |s| ==> s[i] != '.' by {
        forall i | 0 <= i < |s| ensures s[i] != '.' {
          if i > 0 { assert s[i] == ShowNat(m)[i - 1]; }
        }
      }
    }
  }

  /** `int(str(n)) == n`: printing an integer and parsing it back is the identity, for every
      integer of at most `MaxStrDigits` digits; a longer one is refused. */
  lemma ParseShowRoundTrip(n: int)
    ensures DigitsOf(n) <= MaxStrDigits ==> ParseInt(ShowInt(n)) == Some(n)
    ensures DigitsOf(n) > MaxStrDigits ==> ParseInt(ShowInt(n)) == None
    ensures '.' !in ShowInt(n)
  {
    var m := if n < 0 then -n else n;
    ShowNatValue(m);
    ShowNatWellFormed(m);
    ShowNatDigitCount(m);
    ParseDigits(ShowNat(m));
    ShowIntNoDot(n);
  }

  /** A character that can appear in no integer literal makes `int()` fail. */
  lemma NonNumericRejected(s: string, i: nat)
    requires i < |s|
    requires !IsDigit(s[i]) && !IsSpace(s[i]) && s[i] != '_' && s[i] != '+' && s[i] != '-'
    ensures ParseInt(s) == None
  {
    var t := TrimEnd(TrimStart(s));
    TrimKeeps(s, s[i]);
    TrimKeeps(TrimStart(s), s[i]);
    assert s[i] in t;
    var j :| 0 <= j < |t| && t[j] == s[i];
    if |t| > 0 && (t[0] == '+' || t[0] == '-') {
      assert j > 0 && t[1..][j - 1] == s[i];
    }
  }

  // ---------------------------------------------------------------------------------------
  // __spec_version__
  // ---------------------------------------------------------------------------------------

  /** The packing of three components into `__spec_version__`. */
  function Encode(major: int, minor: int, patch: int): (packed: int) {
    10000 * major + 100 * minor + patch
  }

  /** `__spec_version__` computed from a version string, with the left-to-right evaluation of
      the source: component 0 is converted first, then component 1 is indexed and converted,
      then component 2. */
  function SpecVersion(version: string): (r: Result<int, VersionError>) {
    var parts := Split(version);
    match ParseInt(parts[0])
    case None => Err(ValueError)
    case Some(major) =>
      if |parts| < 2 then Err(IndexError)
      else match ParseInt(parts[1])
      case None => Err(ValueError)
      case Some(minor) =>
        if |parts| < 3 then Err(IndexError)
        else match ParseInt(parts[2])
        case None => Err(ValueError)
        case Some(patch) => Ok(Encode(major, minor, patch))
  }

  /** The string a release would carry for three components. */
  function Format(major: int, minor: int, patch: int): (version: string) {
    ShowInt(major) + "." + ShowInt(minor) + "." + ShowInt(patch)
  }

  /** A formatted version splits into its three printed components. */
  lemma SplitFormat(major: int, minor: int, patch: int)
    ensures Split(Format(major, minor, patch)) == [ShowInt(major), ShowInt(minor), ShowInt(patch)]
  {
    ParseShowRoundTrip(major);
    ParseShowRoundTrip(minor);
    ParseShowRoundTrip(patch);
    SplitAtDot(ShowInt(major) + "." + ShowInt(minor), ShowInt(patch));
    SplitAtDot(ShowInt(major), ShowInt(minor));
    SplitNoDot(ShowInt(major));
    SplitNoDot(ShowInt(minor));
    SplitNoDot(ShowInt(patch));
  }

  /** Encoding the printed components yields exactly the packed integer, when none of them
      has more than `MaxStrDigits` digits; otherwise `int()` raises. */
  lemma FormatRoundTrip(major: int, minor: int, patch: int)
    ensures SpecVersion(Format(major, minor, patch)) ==
      if DigitsOf(major) <= MaxStrDigits && DigitsOf(minor) <= MaxStrDigits && DigitsOf(patch) <= MaxStrDigits
      then Ok(Encode(major, minor, patch))
      else Err(ValueError)
  {
    SplitFormat(major, minor, patch);
    ParseShowRoundTrip(major);
    ParseShowRoundTrip(minor);
    ParseShowRoundTrip(patch);
  }

  /** The shipped version "0.0.2" has spec version 2. */
  lemma CurrentSpecVersion()
    ensures SpecVersion(Current) == Ok(2)
  {
    assert ShowInt(0) == "0" && ShowInt(2) == "2";
    assert Current == Format(0, 0, 2);
    FormatRoundTrip(0, 0, 2);
  }

  /** Components beyond the third are never looked at. */
  lemma ExtraComponentsIgnored(version: string, rest: string)
    requires |Split(version)| >= 3
    ensures SpecVersion(version + "." + rest) == SpecVersion(version)
  {
    SplitAtDot(version, rest);
    var parts := Split(version + "." + rest);
    assert parts[0] == Split(version)[0];
    assert parts[1] == Split(version)[1];
    assert parts[2] == Split(version)[2];
  }

  /** Fewer than three components is an error: an index error once the components that are
      there convert, a value error if one of them does not. */
  lemma TooFewComponents(version: string)
    requires |Split(version)| < 3
    ensures SpecVersion(version).Err?
    ensures (forall i :: 0 <= i < |Split(version)| ==> ParseInt(Split(version)[i]).Some?)
      ==> SpecVersion(version) == Err(IndexError)
  {
  }

  /** A component among the first three that `int()` rejects makes the whole evaluation fail. */
  lemma {:induction false} NonNumericComponent(version: string, i: nat)
    requires i < 3 && i < |Split(version)|
    requires ParseInt(Split(version)[i]) == None
    ensures SpecVersion(version) == Err(ValueError)
  {
    SpecVersionOk(version);
  }

  /** Succeeding means three integer components, packed. */
  lemma SpecVersionOk(version: string)
    ensures SpecVersion(version).Ok? <==>
      |Split(version)| >= 3 &&
      ParseInt(Split(version)[0]).Some? &&
      ParseInt(Split(version)[1]).Some? &&
      ParseInt(Split(version)[2]).Some?
    ensures SpecVersion(version).Ok? ==>
      SpecVersion(version).value == Encode(ParseInt(Split(version)[0]).value,
                                           ParseInt(Split(version)[1]).value,
                                           ParseInt(Split(version)[2]).value)
  {
  }

  /** Lexicographic order on (major, minor, patch). */
  predicate LexLess(a: (int, int, int), b: (int, int, int)) {
    a.0 < b.0 || (a.0 == b.0 && (a.1 < b.1 || (a.1 == b.1 && a.2 < b.2)))
  }

  predicate InRange(a: (int, int, int)) {
    0 <= a.1 < 100 && 0 <= a.2 < 100
  }

  /** With minor and patch in 0..99 the packing is injective and order-preserving. */
  lemma EncodeOrder(a: (int, int, int), b: (int, int, int))
    requires InRange(a) && InRange(b)
    ensures Encode(a.0, a.1, a.2) == Encode(b.0, b.1, b.2) <==> a == b
    ensures Encode(a.0, a.1, a.2) < Encode(b.0, b.1, b.2) <==> LexLess(a, b)
  {
  }

  /** Outside that range distinct versions collide: "0.100.0" and "1.0.0" pack alike. */
  lemma EncodeCollision()
    ensures SpecVersion("0.100.0") == SpecVersion("1.0.0") == Ok(10000)
  {
    assert "0.100.0" == Format(0, 100, 0);
    assert "1.0.0" == Format(1, 0, 0);
    FormatRoundTrip(0, 100, 0);
    FormatRoundTrip(1, 0, 0);
  }
}
