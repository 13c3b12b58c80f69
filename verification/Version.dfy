/**
  App versions (src/openmv_ota/ota/version.py): the printed form, the packed form, and the order they
  share. Which characters are digits, of what value, and which are white space is a parameter: the
  regular expression's and `int`'s digits and spaces are those of Unicode.
 */
module Version {
  import opened Wrappers

  datatype Error = Invalid | TooBig

  datatype Version = Version(major: nat, minor: nat, patch: nat, build: nat)

  datatype Chars = Chars(digit: char -> Option<nat>, space: char -> bool)

  /** The decimal digits have their values; no character is both a digit and a space, nor a dot either. */
  ghost predicate Sound(k: Chars) {
    && (forall n | 0 <= n < 10 :: k.digit("0123456789"[n]) == Some(n))
    && (forall c :: IsDigit(k, c) ==> !IsSpace(k, c))
    && !IsDigit(k, '.') && !IsSpace(k, '.')
  }

  predicate IsDigit(k: Chars, c: char) {
    k.digit(c).Some?
  }

  predicate IsSpace(k: Chars, c: char) {
    k.space(c)
  }

  predicate AllDigits(k: Chars, s: string) {
    s != "" && forall i | 0 <= i < |s| :: IsDigit(k, s[i])
  }

  predicate AllSpace(k: Chars, s: string) {
    forall i | 0 <= i < |s| :: IsSpace(k, s[i])
  }

  function Numeral(k: Chars, s: string): nat
    requires forall i | 0 <= i < |s| :: IsDigit(k, s[i])
  {
    if s == "" then 0 else
    assert IsDigit(k, s[|s| - 1]);
    10 * Numeral(k, s[..|s| - 1]) + k.digit(s[|s| - 1]).value
  }

  // ---- parsing: spaces, three or four numerals with dots between, spaces ----

  function Digits(k: Chars, s: string): (n: nat)
    ensures n <= |s| && forall i | 0 <= i < n :: IsDigit(k, s[i])
    ensures n < |s| ==> !IsDigit(k, s[n])
  {
    if s == "" || !IsDigit(k, s[0]) then 0 else
    assert forall i | 0 < i < 1 + Digits(k, s[1..]) :: s[i] == s[1..][i - 1];
    1 + Digits(k, s[1..])
  }

  function SkipSpace(k: Chars, s: string): string {
    if s == "" || !IsSpace(k, s[0]) then s else SkipSpace(k, s[1..])
  }

  /** A numeral at the front, and what follows it. */
  function Number(k: Chars, s: string): (r: Option<(nat, string)>)
    ensures r.Some? ==> |r.value.1| < |s|
  {
    var n := Digits(k, s);
    if n == 0 then None else Some((Numeral(k, s[..n]), s[n..]))
  }

  /** A dot and a numeral. */
  function DotNumber(k: Chars, s: string): (r: Option<(nat, string)>) {
    if s == "" || s[0] != '.' then None else Number(k, s[1..])
  }

  function Match(k: Chars, s: string): Option<Version> {
    match Number(k, SkipSpace(k, s))
    case None => None
    case Some((major, s1)) =>
      match DotNumber(k, s1)
      case None => None
      case Some((minor, s2)) =>
        match DotNumber(k, s2)
        case None => None
        case Some((patch, s3)) =>
          var (build, s4) := match DotNumber(k, s3) case None => (0, s3) case Some((n, s4)) => (n, s4);
          if AllSpace(k, s4) then Some(Version(major, minor, patch, build)) else None
  }

  function ParseSemver(k: Chars, s: string): (r: Result<Version, Error>)
    ensures r.Success? ==> var v := r.value; v.major < 256 && v.minor < 256 && v.patch < 256 && v.build < 256
  {
    match Match(k, s)
    case None => Failure(Invalid)
    case Some(v) =>
      if v.major > 255 || v.minor > 255 || v.patch > 255 || v.build > 255 then Failure(TooBig) else Success(v)
  }

  function Pack(v: Version): nat {
    v.major * 0x100_0000 + v.minor * 0x1_0000 + v.patch * 0x100 + v.build
  }

  function Encode(k: Chars, s: string): Result<nat, Error> {
    var v :- ParseSemver(k, s);
    Success(Pack(v))
  }

  // ---- printing ----

  function Decimal(n: nat): (s: string)
    ensures s != ""
  {
    if n < 10 then ["0123456789"[n]] else Decimal(n / 10) + ["0123456789"[n % 10]]
  }

  lemma {:induction false} DecimalDigits(k: Chars, n: nat)
    requires Sound(k)
    ensures AllDigits(k, Decimal(n)) && Numeral(k, Decimal(n)) == n
  {
    assert k.digit("0123456789"[n % 10]) == Some(n % 10);
    if n >= 10 {
      DecimalDigits(k, n / 10);
      var s := Decimal(n);
      assert s[..|s| - 1] == Decimal(n / 10);
    }
  }

  /** Numerals with dots between, and what follows them. */
  function Form(a: string, b: string, c: string, rest: string): string {
    a + ("." + b + ("." + c + rest))
  }

  function Unpack(code: nat): Version {
    Version(code / 0x100_0000 % 256, code / 0x1_0000 % 256, code / 0x100 % 256, code % 256)
  }

  function Decode(code: nat): string {
    var v := Unpack(code);
    Form(Decimal(v.major), Decimal(v.minor), Decimal(v.patch), if v.build != 0 then "." + Decimal(v.build) else "")
  }

  // ---- what is accepted ----

  lemma {:induction false} DigitsOf(k: Chars, a: string, rest: string)
    requires forall i | 0 <= i < |a| :: IsDigit(k, a[i])
    requires rest != "" ==> !IsDigit(k, rest[0])
    ensures Digits(k, a + rest) == |a|
  {
    if a == "" {
      assert a + rest == rest;
    } else {
      DigitsOf(k, a[1..], rest);
      assert (a + rest)[1..] == a[1..] + rest;
    }
  }

  lemma NumberOf(k: Chars, a: string, rest: string)
    requires AllDigits(k, a) && (rest != "" ==> !IsDigit(k, rest[0]))
    ensures Number(k, a + rest) == Some((Numeral(k, a), rest))
  {
    DigitsOf(k, a, rest);
    assert (a + rest)[..|a|] == a && (a + rest)[|a|..] == rest;
  }

  lemma DotNumberOf(k: Chars, a: string, rest: string)
    requires AllDigits(k, a) && (rest != "" ==> !IsDigit(k, rest[0]))
    ensures DotNumber(k, "." + a + rest) == Some((Numeral(k, a), rest))
  {
    hide Number, Numeral;
    NumberOf(k, a, rest);
    assert ("." + a + rest)[1..] == a + rest;
  }

  lemma {:induction false} SkipSpaceOf(k: Chars, lead: string, rest: string)
    requires AllSpace(k, lead) && (rest != "" ==> !IsSpace(k, rest[0]))
    ensures SkipSpace(k, lead + rest) == rest
  {
    if lead == "" {
      assert lead + rest == rest;
    } else {
      SkipSpaceOf(k, lead[1..], rest);
      assert (lead + rest)[1..] == lead[1..] + rest;
    }
  }

  /** The optional build number: nothing, or a dot and digits. */
  predicate BuildPart(k: Chars, d: string) {
    d == "" || (d[0] == '.' && AllDigits(k, d[1..]))
  }

  function BuildOf(k: Chars, d: string): nat
    requires BuildPart(k, d)
  {
    if d == "" then 0 else Numeral(k, d[1..])
  }

  /** Every string of the promised form is matched, with the values of its numerals: any number of
      digits, leading zeros, space around, and a build number or none. */
  lemma MatchesForm(k: Chars, lead: string, a: string, b: string, c: string, d: string, trail: string)
    requires Sound(k) && AllSpace(k, lead) && AllSpace(k, trail)
    requires AllDigits(k, a) && AllDigits(k, b) && AllDigits(k, c) && BuildPart(k, d)
    ensures Match(k, lead + Form(a, b, c, d + trail))
         == Some(Version(Numeral(k, a), Numeral(k, b), Numeral(k, c), BuildOf(k, d)))
  {
    hide Numeral, Digits, SkipSpace, Number, DotNumber;
    var s3 := d + trail;
    var s2 := "." + c + s3;
    var s1 := "." + b + s2;
    assert Form(a, b, c, s3) == a + s1;
    hide Form;
    assert !IsSpace(k, (a + s1)[0]);
    NotADigit(k, d, trail);
    SkipSpaceOf(k, lead, a + s1);
    NumberOf(k, a, s1);
    DotNumberOf(k, b, s2);
    DotNumberOf(k, c, s3);
    BuildOfRest(k, d, trail);
  }

  lemma NotADigit(k: Chars, d: string, trail: string)
    requires Sound(k) && BuildPart(k, d) && AllSpace(k, trail)
    ensures d + trail != "" ==> !IsDigit(k, (d + trail)[0])
    ensures trail != "" ==> !IsDigit(k, trail[0])
  {
  }

  lemma BuildOfRest(k: Chars, d: string, trail: string)
    requires Sound(k) && BuildPart(k, d) && AllSpace(k, trail)
    ensures DotNumber(k, d + trail) == if d == "" then None else Some((BuildOf(k, d), trail))
  {
    hide Numeral, Digits, Number;
    if d == "" {
      assert d + trail == trail;
    } else {
      assert d + trail == "." + d[1..] + trail;
      DotNumberOf(k, d[1..], trail);
    }
  }

  lemma NumberForm(k: Chars, s: string) returns (a: string)
    requires Number(k, s).Some?
    ensures AllDigits(k, a) && s == a + Number(k, s).value.1 && Number(k, s).value.0 == Numeral(k, a)
  {
    a := s[..Digits(k, s)];
  }

  lemma DotNumberForm(k: Chars, s: string) returns (a: string)
    requires DotNumber(k, s).Some?
    ensures AllDigits(k, a) && s == "." + a + DotNumber(k, s).value.1 && DotNumber(k, s).value.0 == Numeral(k, a)
  {
    hide Number;
    a := NumberForm(k, s[1..]);
    assert s == "." + s[1..];
  }

  lemma {:induction false} SkipSpaceForm(k: Chars, s: string) returns (lead: string)
    ensures AllSpace(k, lead) && s == lead + SkipSpace(k, s)
    decreases |s|
  {
    if s == "" || !IsSpace(k, s[0]) {
      lead := "";
      assert s == "" + s;
    } else {
      var rest := SkipSpaceForm(k, s[1..]);
      lead := [s[0]] + rest;
      assert s == [s[0]] + s[1..];
    }
  }

  /** And only strings of that form are matched. */
  lemma MatchedForm(k: Chars, s: string)
    returns (lead: string, a: string, b: string, c: string, d: string, trail: string)
    requires Match(k, s).Some?
    ensures AllSpace(k, lead) && AllSpace(k, trail)
    ensures AllDigits(k, a) && AllDigits(k, b) && AllDigits(k, c) && BuildPart(k, d)
    ensures s == lead + Form(a, b, c, d + trail)
    ensures Match(k, s) == Some(Version(Numeral(k, a), Numeral(k, b), Numeral(k, c), BuildOf(k, d)))
  {
    hide Numeral, Digits, SkipSpace, Number, DotNumber;
    lead := SkipSpaceForm(k, s);
    a := NumberForm(k, SkipSpace(k, s));
    var s1 := Number(k, SkipSpace(k, s)).value.1;
    b := DotNumberForm(k, s1);
    var s2 := DotNumber(k, s1).value.1;
    c := DotNumberForm(k, s2);
    var s3 := DotNumber(k, s2).value.1;
    if DotNumber(k, s3).Some? {
      var n := DotNumberForm(k, s3);
      d, trail := "." + n, DotNumber(k, s3).value.1;
      assert d[1..] == n;
    } else {
      d, trail := "", s3;
      assert d + trail == s3;
    }
  }

  // ---- round trip and order ----

  /** Encoding the printed version gives back the low 32 bits: every uint32 comes back itself. */
  lemma EncodeDecoded(k: Chars, code: nat)
    requires Sound(k)
    ensures Encode(k, Decode(code)) == Success(code % 0x1_0000_0000)
  {
    var v := Unpack(code);
    var a, b, c := Decimal(v.major), Decimal(v.minor), Decimal(v.patch);
    var d := if v.build != 0 then "." + Decimal(v.build) else "";
    hide Match, Decimal, Numeral, Form, Pack;
    DecimalDigits(k, v.major);
    DecimalDigits(k, v.minor);
    DecimalDigits(k, v.patch);
    DecimalDigits(k, v.build);
    assert d != "" ==> d[1..] == Decimal(v.build);
    MatchesForm(k, "", a, b, c, d, "");
    assert d + "" == d && "" + Form(a, b, c, d) == Form(a, b, c, d);
    PackUnpacked(code);
  }

  lemma Quotients(code: nat)
    ensures code / 0x1_0000 == code / 256 / 256
    ensures code / 0x100_0000 == code / 256 / 256 / 256
    ensures code / 0x1_0000_0000 == code / 256 / 256 / 256 / 256
  {
  }

  lemma PackUnpacked(code: nat)
    ensures Pack(Unpack(code)) == code % 0x1_0000_0000
  {
    Quotients(code);
    var q1, q4 := code / 256, code / 0x1_0000_0000;
    var q2 := q1 / 256;
    var q3 := q2 / 256;
    assert code == code % 256 + 256 * q1 && q1 == q1 % 256 + 256 * q2 && q2 == q2 % 256 + 256 * q3;
    assert q3 == q3 % 256 + 256 * q4;
  }

  /** Component by component, the first difference decides. */
  predicate Before(v: Version, w: Version) {
    v.major < w.major || (v.major == w.major &&
      (v.minor < w.minor || (v.minor == w.minor &&
        (v.patch < w.patch || (v.patch == w.patch && v.build < w.build)))))
  }

  /** The codes of valid versions order, and are equal, as the versions are; a missing build is 0. */
  lemma OrderPreserved(k: Chars, s: string, t: string)
    requires Encode(k, s).Success? && Encode(k, t).Success?
    ensures Encode(k, s).value < Encode(k, t).value <==> Before(ParseSemver(k, s).value, ParseSemver(k, t).value)
    ensures Encode(k, s).value == Encode(k, t).value <==> ParseSemver(k, s) == ParseSemver(k, t)
    ensures Encode(k, s).value < 0x1_0000_0000
  {
    hide Match;
  }

  // ---- what is printed and encoded, in numbers ----

  /** Digits, with no zero ahead of others. */
  predicate Plain(s: string) {
    s != "" && (forall i | 0 <= i < |s| :: '0' <= s[i] <= '9') && (|s| > 1 ==> s[0] != '0')
  }

  lemma {:induction false} DecimalPlain(n: nat)
    ensures Plain(Decimal(n)) && (n > 0 ==> Decimal(n)[0] != '0')
  {
    if n >= 10 {
      DecimalPlain(n / 10);
      assert '0' <= "0123456789"[n % 10] <= '9';
    }
  }

  /** A code is printed as its four bytes, the highest first, without leading zeros; the fourth is left
      out exactly when it is zero. */
  lemma DecodeIs(k: Chars, code: nat) returns (a: string, b: string, c: string, d: string)
    requires Sound(k)
    ensures Decode(code) == a + ("." + b + ("." + c + if code % 256 == 0 then "" else "." + d))
    ensures Plain(a) && Plain(b) && Plain(c) && Plain(d)
    ensures AllDigits(k, a) && AllDigits(k, b) && AllDigits(k, c) && AllDigits(k, d)
    ensures Numeral(k, a) == code / 0x100_0000 % 256 && Numeral(k, b) == code / 0x1_0000 % 256
    ensures Numeral(k, c) == code / 0x100 % 256 && Numeral(k, d) == code % 256
  {
    var v := Unpack(code);
    a, b, c, d := Decimal(v.major), Decimal(v.minor), Decimal(v.patch), Decimal(v.build);
    hide Decimal, Numeral, Plain;
    DecimalPlain(v.major);
    DecimalPlain(v.minor);
    DecimalPlain(v.patch);
    DecimalPlain(v.build);
    DecimalDigits(k, v.major);
    DecimalDigits(k, v.minor);
    DecimalDigits(k, v.patch);
    DecimalDigits(k, v.build);
  }

  /** A string of the form encodes its numerals, a byte each, or is refused when one is over 255. */
  lemma EncodesForm(k: Chars, lead: string, a: string, b: string, c: string, d: string, trail: string)
    requires Sound(k) && AllSpace(k, lead) && AllSpace(k, trail)
    requires AllDigits(k, a) && AllDigits(k, b) && AllDigits(k, c) && BuildPart(k, d)
    ensures var w, x, y, z := Numeral(k, a), Numeral(k, b), Numeral(k, c), BuildOf(k, d);
      Encode(k, lead + Form(a, b, c, d + trail))
      == if w <= 255 && x <= 255 && y <= 255 && z <= 255
         then Success(w * 0x100_0000 + x * 0x1_0000 + y * 0x100 + z) else Failure(TooBig)
  {
    hide Match, Numeral, Form;
    MatchesForm(k, lead, a, b, c, d, trail);
  }

  /** A string of no such form is refused. */
  lemma RefusesOthers(k: Chars, s: string)
    requires Match(k, s).None?
    ensures Encode(k, s) == Failure(Invalid)
  {
  }
}
