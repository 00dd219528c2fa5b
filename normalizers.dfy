/** The field normalizers of the cleaning pass and the partial updates
    (`$set` documents) the passes build from them, one document at a time. */
module Normalizers {
  import opened Values

  // ---------------------------------------------------------------------
  // E-mail: the pattern `^[a-zA-Z0-9._%+-]+@[a-zA-Z0-9.-]+\.[a-zA-Z]{2,}$`
  // ---------------------------------------------------------------------

  predicate IsLocalChar(c: char) {
    IsAsciiLetter(c) || IsDigit(c) || c == '.' || c == '_' || c == '%' || c == '+' || c == '-'
  }

  predicate IsDomainChar(c: char) {
    IsAsciiLetter(c) || IsDigit(c) || c == '.' || c == '-'
  }

  predicate AllLocalChars(s: string) {
    forall i | 0 <= i < |s| :: IsLocalChar(s[i])
  }

  predicate AllDomainChars(s: string) {
    forall i | 0 <= i < |s| :: IsDomainChar(s[i])
  }

  predicate AllLetters(s: string) {
    forall i | 0 <= i < |s| :: IsAsciiLetter(s[i])
  }

  /** The whole of `d` is `[a-zA-Z0-9.-]+\.[a-zA-Z]{2,}`: some dot splits it
      into a non-empty domain and a top-level label of two or more letters. */
  predicate IsDomainWithTld(d: string) {
    exists p | 1 <= p <= |d| - 3 :: d[p] == '.' && AllDomainChars(d[..p]) && AllLetters(d[p + 1..])
  }

  /** The whole of `s` is `[a-zA-Z0-9._%+-]+@` followed by a domain. */
  predicate IsAddress(s: string) {
    exists a | 1 <= a < |s| :: s[a] == '@' && AllLocalChars(s[..a]) && IsDomainWithTld(s[a + 1..])
  }

  /** `re.match` of the pattern: anchored at the start, and Python's `$`
      matches at the end or just before one final newline. */
  predicate MatchesEmailPattern(s: string) {
    IsAddress(s) || (|s| > 0 && s[|s| - 1] == '\n' && IsAddress(s[..|s| - 1]))
  }

  /** An address is at least `a@b.cd` long, starts with a local-part
      character and ends with a letter. */
  lemma AddressShape(s: string)
    requires IsAddress(s)
    ensures |s| >= 6 && IsLocalChar(s[0]) && IsAsciiLetter(s[|s| - 1])
  {
    var a :| 1 <= a < |s| && s[a] == '@' && AllLocalChars(s[..a]) && IsDomainWithTld(s[a + 1..]);
    var d := s[a + 1..];
    var p :| 1 <= p <= |d| - 3 && d[p] == '.' && AllDomainChars(d[..p]) && AllLetters(d[p + 1..]);
    assert s[..a][0] == s[0];
    assert d[p + 1..][|d| - p - 2] == s[|s| - 1];
  }

  /** A string the pattern accepts is an address, or an address followed by
      one newline; which one is told by its last character. */
  lemma PatternMatchShape(s: string)
    requires MatchesEmailPattern(s)
    ensures |s| >= 6
    ensures IsAddress(s) <==> s[|s| - 1] != '\n'
  {
    if IsAddress(s) {
      AddressShape(s);
    } else {
      AddressShape(s[..|s| - 1]);
    }
  }

  /** `first.last@example.com` from the raw name fields, lower-cased and
      not re-validated; an absent name reads as the empty string. */
  function SynthesizedEmail(u: Record): (r: string)
    ensures |r| > |ExampleDomain| && r[|r| - |ExampleDomain|..] == ExampleDomain
  {
    Lower(Render(GetOr(u, "first_name", Str("")))) + "."
      + Lower(Render(GetOr(u, "last_name", Str("")))) + ExampleDomain
  }

  const ExampleDomain := "@example.com"

  /** The e-mail normalizer: a string address matching the pattern passes
      through; anything else (absent, not a string, malformed) is replaced
      by the address synthesized from the raw names. */
  function CleanEmail(u: Record): (r: string)
    ensures var e := GetOr(u, "email", Str(""));
      r == (if e.Str? && MatchesEmailPattern(e.s) then e.s else SynthesizedEmail(u))
  {
    var email := GetOr(u, "email", Str(""));
    if !email.Str? then SynthesizedEmail(u)
    else if !MatchesEmailPattern(email.s) then SynthesizedEmail(u)
    else email.s
  }

  /** Feeding the normalizer its own output (names unchanged) gives the
      same address back: a valid address is kept, and a synthesized one is
      either valid or synthesized again from the same names. */
  lemma CleanEmailFixedPoint(u: Record)
    ensures CleanEmail(u["email" := Str(CleanEmail(u))]) == CleanEmail(u)
  {
    var u' := u["email" := Str(CleanEmail(u))];
    assert GetOr(u', "first_name", Str("")) == GetOr(u, "first_name", Str(""));
    assert GetOr(u', "last_name", Str("")) == GetOr(u, "last_name", Str(""));
    assert SynthesizedEmail(u') == SynthesizedEmail(u);
  }

  lemma LowerKeepsLocalChars(s: string)
    requires AllLocalChars(s)
    ensures AllLocalChars(Lower(s))
  {
    forall i | 0 <= i < |s| ensures IsLocalChar(Lower(s)[i]) {
      assert IsLocalChar(s[i]);
    }
  }

  lemma ExampleComIsDomain()
    ensures IsDomainWithTld("example.com")
  {
    var d := "example.com";
    assert d[7] == '.' && AllDomainChars(d[..7]) && AllLetters(d[8..]);
  }

  /** When both raw names render to letters, digits and `._%+-` only, the
      synthesized address itself matches the pattern. */
  lemma {:induction false} SynthesizedEmailMatches(u: Record)
    requires AllLocalChars(Render(GetOr(u, "first_name", Str(""))))
    requires AllLocalChars(Render(GetOr(u, "last_name", Str(""))))
    ensures MatchesEmailPattern(SynthesizedEmail(u))
  {
    var first := Lower(Render(GetOr(u, "first_name", Str(""))));
    var last := Lower(Render(GetOr(u, "last_name", Str(""))));
    LowerKeepsLocalChars(Render(GetOr(u, "first_name", Str(""))));
    LowerKeepsLocalChars(Render(GetOr(u, "last_name", Str(""))));
    var local := first + "." + last;
    var s := SynthesizedEmail(u);
    assert s == local + "@" + "example.com";
    var a := |local|;
    assert s[a] == '@';
    assert s[..a] == local;
    assert s[a + 1..] == "example.com";
    forall i | 0 <= i < |local| ensures IsLocalChar(local[i]) {
      if i < |first| {
        assert local[i] == first[i];
      } else if i > |first| {
        assert local[i] == last[i - |first| - 1];
      }
    }
    ExampleComIsDomain();
    assert IsAddress(s);
  }

  /** Every character of an address is a local-part character or `@`. */
  lemma AddressChars(s: string)
    requires IsAddress(s)
    ensures forall i | 0 <= i < |s| :: IsLocalChar(s[i]) || s[i] == '@'
  {
    var a :| 1 <= a < |s| && s[a] == '@' && AllLocalChars(s[..a]) && IsDomainWithTld(s[a + 1..]);
    var d := s[a + 1..];
    DomainLocalChars(d);
    forall i | 0 <= i < |s| ensures IsLocalChar(s[i]) || s[i] == '@' {
      if i < a {
        assert s[i] == s[..a][i];
      } else if i > a {
        assert s[i] == d[i - a - 1];
      }
    }
  }

  lemma DomainLocalChars(d: string)
    requires IsDomainWithTld(d)
    ensures AllLocalChars(d)
  {
    var p :| 1 <= p <= |d| - 3 && d[p] == '.' && AllDomainChars(d[..p]) && AllLetters(d[p + 1..]);
    forall i | 0 <= i < |d| ensures IsLocalChar(d[i]) {
      if i < p {
        assert d[i] == d[..p][i];
      } else if i > p {
        assert d[i] == d[p + 1..][i - p - 1];
      }
    }
  }

  /** The synthesized address is not checked again: when the raw first
      name renders with a character the pattern refuses (a space, or the
      brackets of a list), an invalid stored e-mail is replaced by an
      address that fails the pattern too. */
  lemma SynthesizedEmailMayFail(u: Record, j: nat)
    requires var first := Render(GetOr(u, "first_name", Str("")));
      j < |first| && !IsLocalChar(first[j]) && first[j] != '@'
    requires var e := GetOr(u, "email", Str("")); !(e.Str? && MatchesEmailPattern(e.s))
    ensures !MatchesEmailPattern(CleanEmail(u))
  {
    var first := Render(GetOr(u, "first_name", Str("")));
    var s := SynthesizedEmail(u);
    assert s[j] == Lower(first)[j] == first[j];
    if IsAddress(s) {
      AddressChars(s);
    }
    assert s[..|s| - 1][j] == s[j];
    if IsAddress(s[..|s| - 1]) {
      AddressChars(s[..|s| - 1]);
    }
  }

  // ---------------------------------------------------------------------
  // Phone
  // ---------------------------------------------------------------------

  const CountryPrefix := "+213"
  const PhoneSentinel := "+213000000000"

  predicate IsPhoneChar(c: char) {
    IsDigit(c) || c == '+'
  }

  /** `re.sub(r'[^\d+]', '', s)`: every character that is not a digit or `+` removed. */
  function KeepPhoneChars(s: string): (r: string)
    ensures |r| <= |s|
    ensures forall i | 0 <= i < |r| :: IsPhoneChar(r[i])
  {
    if s == [] then []
    else (if IsPhoneChar(s[0]) then [s[0]] else []) + KeepPhoneChars(s[1..])
  }

  /** Stripping keeps every digit and `+` of the input, as many times as
      it occurs, and nothing else; `KeepPhoneCharsAppend` gives the order. */
  lemma {:induction false} KeepPhoneCharsCounts(s: string)
    ensures forall c :: multiset(KeepPhoneChars(s))[c] == if IsPhoneChar(c) then multiset(s)[c] else 0
  {
    if s != [] {
      KeepPhoneCharsCounts(s[1..]);
      assert s == [s[0]] + s[1..];
    }
  }

  /** Python's `s[-n:]`. */
  function LastN(s: string, n: nat): string {
    if |s| <= n then s else s[|s| - n..]
  }

  function Zeros(n: nat): (r: string)
    ensures |r| == n
    ensures forall i | 0 <= i < n :: r[i] == '0'
  {
    seq(n, i => '0')
  }

  predicate HasCountryPrefix(s: string) {
    |s| >= 4 && s[..4] == CountryPrefix
  }

  /** The first step of the phone normalizer on the kept characters: a
      leading `+213` stays, any other leading `+` is dropped, and otherwise
      the last nine characters follow `+213`. */
  function WithCountryPrefix(stripped: string): (p: string)
    ensures HasCountryPrefix(p)
    ensures (forall i | 0 <= i < |stripped| :: IsPhoneChar(stripped[i])) ==>
      forall i | 0 <= i < |p| :: IsPhoneChar(p[i])
  {
    if HasCountryPrefix(stripped) then stripped
    else if |stripped| > 0 && stripped[0] == '+' then CountryPrefix + LastN(stripped[1..], 9)
    else CountryPrefix + LastN(stripped, 9)
  }

  /** The second step: cut to thirteen characters, or pad the part after
      `+213` with leading zeros up to nine. */
  function FitToThirteen(p: string): (r: string)
    requires HasCountryPrefix(p)
    ensures |r| == 13 && HasCountryPrefix(r)
    ensures (forall i | 0 <= i < |p| :: IsPhoneChar(p[i])) ==>
      forall i | 0 <= i < |r| :: IsPhoneChar(r[i])
  {
    if |p| > 13 then p[..13]
    else if |p| < 13 then CountryPrefix + Zeros(9 - |p[4..]|) + p[4..]
    else p
  }

  /** What follows `+213` after the first step: the stripped text itself
      when it already starts with `+213`; otherwise its last nine characters
      (all of them when fewer), once a leading `+` is dropped. */
  lemma WithCountryPrefixValue(stripped: string)
    ensures var p := WithCountryPrefix(stripped);
      && (HasCountryPrefix(stripped) ==> p == stripped)
      && (!HasCountryPrefix(stripped) ==>
            var body := if |stripped| > 0 && stripped[0] == '+' then stripped[1..] else stripped;
            && |p| == 4 + (if |body| < 9 then |body| else 9)
            && p[4..] == body[|body| - (|p| - 4)..])
  {
    var p := WithCountryPrefix(stripped);
    if !HasCountryPrefix(stripped) {
      var body := if |stripped| > 0 && stripped[0] == '+' then stripped[1..] else stripped;
      assert p == CountryPrefix + LastN(body, 9);
      assert p[4..] == LastN(body, 9);
    }
  }

  /** The second step keeps the first thirteen characters of a long
      number; a short one keeps its part after `+213` at the end, with
      zeros between the prefix and it. */
  lemma FitToThirteenValue(p: string)
    requires HasCountryPrefix(p)
    ensures var r := FitToThirteen(p);
      && (|p| >= 13 ==> r == p[..13])
      && (|p| < 13 ==> r[17 - |p|..] == p[4..] && forall i | 4 <= i < 17 - |p| :: r[i] == '0')
  {
    var r := FitToThirteen(p);
    if |p| < 13 {
      assert r == CountryPrefix + Zeros(9 - |p[4..]|) + p[4..];
      assert r[17 - |p|..] == p[4..];
    }
  }

  /** The phone normalizer: thirteen characters, `+213` then the local part,
      built only from digits and `+`; anything but a string is the sentinel. */
  function CleanPhone(v: Value): (r: string)
    ensures |r| == 13 && HasCountryPrefix(r)
    ensures forall i | 0 <= i < |r| :: IsPhoneChar(r[i])
    ensures !v.Str? ==> r == PhoneSentinel
  {
    match v
    case Str(raw) => FitToThirteen(WithCountryPrefix(KeepPhoneChars(raw)))
    case _ => PhoneSentinel
  }

  /** The normalizer leaves its own output alone. */
  lemma CleanPhoneIdempotent(v: Value)
    ensures CleanPhone(Str(CleanPhone(v))) == CleanPhone(v)
  {
    var r := CleanPhone(v);
    KeepPhoneCharsKeepsClean(r);
  }

  lemma {:induction false} KeepPhoneCharsKeepsClean(s: string)
    requires forall i | 0 <= i < |s| :: IsPhoneChar(s[i])
    ensures KeepPhoneChars(s) == s
  {
    if s != [] {
      KeepPhoneCharsKeepsClean(s[1..]);
      assert s == [s[0]] + s[1..];
    }
  }

  lemma {:induction false} KeepPhoneCharsDigitsOnly(s: string)
    requires forall i | 0 <= i < |s| :: s[i] != '+'
    ensures forall i | 0 <= i < |KeepPhoneChars(s)| :: IsDigit(KeepPhoneChars(s)[i])
  {
    if s != [] {
      KeepPhoneCharsDigitsOnly(s[1..]);
    }
  }

  /** For an input with no `+`, the local part is the last nine digits of
      the input, left-padded with zeros when there are fewer. */
  lemma PhoneWithoutPlus(raw: string)
    requires forall i | 0 <= i < |raw| :: raw[i] != '+'
    ensures var digits := KeepPhoneChars(raw);
      var r := CleanPhone(Str(raw));
      && (forall i | 4 <= i < 13 :: IsDigit(r[i]))
      && (|digits| >= 9 ==> r[4..] == digits[|digits| - 9..])
      && (|digits| < 9 ==> r[4..] == Zeros(9 - |digits|) + digits)
  {
    var digits := KeepPhoneChars(raw);
    var r := CleanPhone(Str(raw));
    KeepPhoneCharsDigitsOnly(raw);
    PhoneLocalPart(raw);
    var local := LocalPartOf(digits);
    assert r[4..] == local;
    assert forall i | 4 <= i < 13 :: r[i] == local[i - 4];
  }

  /** The local part of the output for an input with no `+`: the digits
      cut or padded to nine. */
  function LocalPartOf(digits: string): string {
    if |digits| >= 9 then digits[|digits| - 9..] else Zeros(9 - |digits|) + digits
  }

  /** For an input with no `+`, the output is the country prefix followed
      by the local part of the digits kept. */
  lemma PhoneLocalPart(raw: string)
    requires forall i | 0 <= i < |raw| :: raw[i] != '+'
    ensures CleanPhone(Str(raw)) == CountryPrefix + LocalPartOf(KeepPhoneChars(raw))
  {
    var digits := KeepPhoneChars(raw);
    KeepPhoneCharsDigitsOnly(raw);
    PrefixOfDigits(digits);
    FitDigits(digits);
  }

  lemma PrefixOfDigits(digits: string)
    requires forall i | 0 <= i < |digits| :: IsDigit(digits[i])
    ensures WithCountryPrefix(digits) == CountryPrefix + LastN(digits, 9)
  {
    assert |digits| > 0 ==> IsDigit(digits[0]);
    assert CountryPrefix[0] == '+';
    assert !HasCountryPrefix(digits);
  }

  lemma FitDigits(digits: string)
    ensures FitToThirteen(CountryPrefix + LastN(digits, 9)) == CountryPrefix + LocalPartOf(digits)
  {
    var tail := LastN(digits, 9);
    var prefixed := CountryPrefix + tail;
    assert prefixed[4..] == tail;
    if |digits| >= 9 {
      assert |prefixed| == 13;
      assert tail == digits[|digits| - 9..];
    } else {
      assert |prefixed| < 13 && tail == digits;
      assert CountryPrefix + Zeros(9 - |digits|) + digits == CountryPrefix + (Zeros(9 - |digits|) + digits);
    }
  }

  /** The first nine characters of a local part already behind `+213`,
      left-padded with zeros when there are fewer. */
  function LeadingLocalPartOf(rest: string): string {
    if |rest| >= 9 then rest[..9] else Zeros(9 - |rest|) + rest
  }

  /** International format: when the stripped number starts with `+`, a
      `+213` number keeps the first nine characters after its prefix, and
      any other number keeps the last nine characters after its `+`, so its
      country code is dropped only when at least nine characters follow it;
      both are left-padded with zeros to nine. */
  lemma PhoneWithPlus(raw: string)
    requires var k := KeepPhoneChars(raw); |k| > 0 && k[0] == '+'
    ensures var k := KeepPhoneChars(raw);
      && (HasCountryPrefix(k) ==> CleanPhone(Str(raw)) == CountryPrefix + LeadingLocalPartOf(k[4..]))
      && (!HasCountryPrefix(k) ==> CleanPhone(Str(raw)) == CountryPrefix + LocalPartOf(k[1..]))
  {
    var k := KeepPhoneChars(raw);
    if HasCountryPrefix(k) {
      assert WithCountryPrefix(k) == k;
      PrefixedFit(k);
    } else {
      assert WithCountryPrefix(k) == CountryPrefix + LastN(k[1..], 9);
      FitDigits(k[1..]);
    }
  }

  lemma PrefixedFit(k: string)
    requires HasCountryPrefix(k)
    ensures FitToThirteen(k) == CountryPrefix + LeadingLocalPartOf(k[4..])
  {
    assert k == k[..4] + k[4..];
    if |k| > 13 {
      assert k[..13] == k[..4] + k[4..][..9];
    } else if |k| < 13 {
      assert CountryPrefix + Zeros(9 - |k[4..]|) + k[4..] == CountryPrefix + (Zeros(9 - |k[4..]|) + k[4..]);
    }
  }

  /** A `+213` number written with spaces keeps its nine digits. */
  lemma SpacedInternationalExample()
    ensures CleanPhone(Str("+213 555 12 34 56")) == "+213555123456"
  {
    SpacedInternationalKept();
    InternationalLocalPart();
    PhoneWithPlus("+213 555 12 34 56");
  }

  lemma InternationalLocalPart()
    ensures "+213555123456"[0] == '+' && HasCountryPrefix("+213555123456")
    ensures CountryPrefix + LeadingLocalPartOf("+213555123456"[4..]) == "+213555123456"
  {
    assert "+213555123456"[..4] == CountryPrefix;
    assert "+213555123456"[4..] == "555123456";
  }

  lemma SpacedInternationalKept()
    ensures KeepPhoneChars("+213 555 12 34 56") == "+213555123456"
  {
    InternationalInPieces();
    KeepPhoneCharsOfFive("+213", " 555", " 12", " 34", " 56");
    KeepPhoneQuad('+', '2', '1', '3');
    KeepSpacedTriple('5', '5', '5');
    KeepSpacedPair('1', '2');
    KeepSpacedPair('3', '4');
    KeepSpacedPair('5', '6');
    InternationalPiecesJoined();
  }

  lemma KeepPhoneQuad(a: char, b: char, c: char, d: char)
    requires IsPhoneChar(a) && IsPhoneChar(b) && IsPhoneChar(c) && IsPhoneChar(d)
    ensures KeepPhoneChars([a, b, c, d]) == [a, b, c, d]
  {
    assert [a, b, c, d][1..] == [b, c, d];
    assert [b, c, d][1..] == [c, d];
    KeepDigitPairOrPlus(c, d);
  }

  lemma KeepDigitPairOrPlus(c: char, d: char)
    requires IsPhoneChar(c) && IsPhoneChar(d)
    ensures KeepPhoneChars([c, d]) == [c, d]
  {
    assert [c, d][1..] == [d];
  }

  lemma KeepSpacedTriple(c: char, d: char, e: char)
    requires IsDigit(c) && IsDigit(d) && IsDigit(e)
    ensures KeepPhoneChars([' ', c, d, e]) == [c, d, e]
  {
    assert [' ', c, d, e][1..] == [c, d, e];
    assert [c, d, e][1..] == [d, e];
    KeepDigitPair(d, e);
  }

  lemma InternationalInPieces()
    ensures "+213 555 12 34 56" == "+213" + " 555" + " 12" + " 34" + " 56"
  {
  }

  lemma InternationalPiecesJoined()
    ensures "+213" + "555" + "12" + "34" + "56" == "+213555123456"
  {
  }

  /** A local number written with spaces keeps its last nine digits. */
  lemma SpacedPhoneExample()
    ensures CleanPhone(Str("06 12 34 56 78")) == "+213612345678"
  {
    SpacedDigitsKept();
    KeptDigitsAreDigits();
    PrefixOfDigits("0612345678");
    FitDigits("0612345678");
    KeptDigitsLocalPart();
  }

  lemma KeptDigitsAreDigits()
    ensures forall i | 0 <= i < |"0612345678"| :: IsDigit("0612345678"[i])
  {
  }

  lemma KeptDigitsLocalPart()
    ensures CountryPrefix + LocalPartOf("0612345678") == "+213612345678"
  {
    assert "0612345678"[1..] == "612345678";
  }

  lemma SpacedDigitsKept()
    ensures KeepPhoneChars("06 12 34 56 78") == "0612345678"
  {
    SpacedNumberInPairs();
    KeepPhoneCharsOfFive("06", " 12", " 34", " 56", " 78");
    KeepDigitPair('0', '6');
    KeepSpacedPair('1', '2');
    KeepSpacedPair('3', '4');
    KeepSpacedPair('5', '6');
    KeepSpacedPair('7', '8');
    DigitPairsJoined();
  }

  lemma SpacedNumberInPairs()
    ensures "06 12 34 56 78" == "06" + " 12" + " 34" + " 56" + " 78"
  {
  }

  lemma DigitPairsJoined()
    ensures "06" + "12" + "34" + "56" + "78" == "0612345678"
  {
  }

  lemma KeepPhoneCharsOfFive(a: string, b: string, c: string, d: string, e: string)
    ensures KeepPhoneChars(a + b + c + d + e)
         == KeepPhoneChars(a) + KeepPhoneChars(b) + KeepPhoneChars(c) + KeepPhoneChars(d) + KeepPhoneChars(e)
  {
    KeepPhoneCharsAppend(a + b + c + d, e);
    KeepPhoneCharsAppend(a + b + c, d);
    KeepPhoneCharsAppend(a + b, c);
    KeepPhoneCharsAppend(a, b);
  }

  lemma KeepDigitPair(c: char, d: char)
    requires IsDigit(c) && IsDigit(d)
    ensures KeepPhoneChars([c, d]) == [c, d]
  {
    assert [c, d][1..] == [d];
  }

  lemma KeepSpacedPair(c: char, d: char)
    requires IsDigit(c) && IsDigit(d)
    ensures KeepPhoneChars([' ', c, d]) == [c, d]
  {
    assert [' ', c, d][1..] == [c, d];
    KeepDigitPair(c, d);
  }

  lemma {:induction false} KeepPhoneCharsAppend(a: string, b: string)
    ensures KeepPhoneChars(a + b) == KeepPhoneChars(a) + KeepPhoneChars(b)
  {
    if a != [] {
      assert (a + b)[1..] == a[1..] + b;
      KeepPhoneCharsAppend(a[1..], b);
    } else {
      assert a + b == b;
    }
  }

  /** An empty number becomes the prefix and nine zeros. */
  lemma EmptyPhoneExample()
    ensures CleanPhone(Str("")) == PhoneSentinel
  {
    PhoneLocalPart("");
    assert LocalPartOf("") == "000000000";
  }

  /** A short number under another country code keeps that code: only
      its `+` is dropped before the zero padding. */
  lemma ForeignShortExample()
    ensures CleanPhone(Str("+15551234")) == "+213015551234"
  {
    ForeignShortKept();
    PhoneWithPlus("+15551234");
    ForeignShortLocalPart();
  }

  lemma ForeignShortKept()
    ensures KeepPhoneChars("+15551234") == "+15551234"
    ensures !HasCountryPrefix("+15551234")
  {
    KeepPhoneCharsKeepsClean("+15551234");
    assert "+15551234"[..4][1] != CountryPrefix[1];
  }

  lemma ForeignShortLocalPart()
    ensures CountryPrefix + LocalPartOf("+15551234"[1..]) == "+213015551234"
  {
    assert "+15551234"[1..] == "15551234";
    assert Zeros(1) == "0";
  }

  /** A `+` after the prefix is kept: the local part need not be digits. */
  lemma InnerPlusExample()
    ensures CleanPhone(Str("+213+1")) == "+2130000000+1"
  {
    InnerPlusKept();
    InnerPlusPadded();
  }

  lemma InnerPlusKept()
    ensures KeepPhoneChars("+213+1") == "+213+1"
    ensures HasCountryPrefix("+213+1")
  {
    KeepPhoneCharsKeepsClean("+213+1");
    assert "+213+1"[..4] == CountryPrefix;
  }

  lemma InnerPlusPadded()
    ensures FitToThirteen("+213+1") == "+2130000000+1"
  {
    assert "+213+1"[4..] == "+1";
    assert Zeros(7) == "0000000";
  }

  // ---------------------------------------------------------------------
  // Gender
  // ---------------------------------------------------------------------

  /** The gender normalizer: case-insensitive `m`/`male` and `f`/`female`;
      anything else, strings or not, is `Unknown`. */
  function CleanGender(v: Value): (r: string)
    ensures r == "Male" || r == "Female" || r == "Unknown"
    ensures r == "Male" <==> v.Str? && (EqualsIgnoringCase(v.s, "m") || EqualsIgnoringCase(v.s, "male"))
    ensures r == "Female" <==> v.Str? && (EqualsIgnoringCase(v.s, "f") || EqualsIgnoringCase(v.s, "female"))
  {
    match v
    case Str(s) =>
      var g := Upper(s);
      UpperEqualIffEqualsIgnoringCase(s, "m");
      UpperEqualIffEqualsIgnoringCase(s, "male");
      UpperEqualIffEqualsIgnoringCase(s, "f");
      UpperEqualIffEqualsIgnoringCase(s, "female");
      assert Upper("m") == "M" && Upper("male") == "MALE";
      assert Upper("f") == "F" && Upper("female") == "FEMALE";
      if g == "MALE" || g == "M" then "Male"
      else if g == "FEMALE" || g == "F" then "Female"
      else "Unknown"
    case _ => "Unknown"
  }

  /** The normalizer leaves its own output alone. */
  lemma CleanGenderIdempotent(v: Value)
    ensures CleanGender(Str(CleanGender(v))) == CleanGender(v)
  {
    var r := CleanGender(v);
    if r == "Male" {
      assert EqualsIgnoringCase(r, "male");
    } else if r == "Female" {
      assert EqualsIgnoringCase(r, "female");
    } else {
      assert !EqualsIgnoringCase(r, "m") && !EqualsIgnoringCase(r, "male");
      assert r[1] == 'n';
      assert !EqualsIgnoringCase(r, "f") && !EqualsIgnoringCase(r, "female");
    }
  }

  // ---------------------------------------------------------------------
  // Users: the `$set` document of one user
  // ---------------------------------------------------------------------

  /** A name field is replaced when absent, not a string, or empty. */
  predicate NeedsNameFallback(u: Record, k: string) {
    !(k in u && u[k].Str? && u[k].s != "")
  }

  /** The fields every user update sets. */
  const UserFields: set<string> := {"email", "phone", "gender", "first_name", "last_name"}

  /** The `$set` document built for one user: always the e-mail, phone and
      gender, and a name exactly when that name needs its fallback. */
  function UserUpdate(u: Record): map<string, Value> {
    var base := map[
      "email" := Str(CleanEmail(u)),
      "phone" := Str(CleanPhone(GetOr(u, "phone", Str("")))),
      "gender" := Str(CleanGender(GetOr(u, "gender", Str(""))))];
    var withFirst := if NeedsNameFallback(u, "first_name") then base["first_name" := Str("Unknown")] else base;
    if NeedsNameFallback(u, "last_name") then withFirst["last_name" := Str("User")] else withFirst
  }

  /** A user after its update is applied: it holds all five update fields,
      and every field outside them is as it was. */
  function RepairUser(u: Record): Record {
    u + UserUpdate(u)
  }

  /** What the update does to a user: e-mail, phone and gender become the
      normalizer outputs, a name is replaced by `Unknown`/`User` only when it
      needs a fallback, and every other field is as it was. */
  lemma RepairUserSets(u: Record)
    ensures var r := RepairUser(u);
      && r.Keys == u.Keys + UserFields
      && r["email"] == Str(CleanEmail(u))
      && r["phone"] == Str(CleanPhone(GetOr(u, "phone", Str(""))))
      && r["gender"] == Str(CleanGender(GetOr(u, "gender", Str(""))))
      && r["first_name"] == (if NeedsNameFallback(u, "first_name") then Str("Unknown") else u["first_name"])
      && r["last_name"] == (if NeedsNameFallback(u, "last_name") then Str("User") else u["last_name"])
      && (forall k | k in u && k !in UserFields :: r[k] == u[k])
  {
    var upd := UserUpdate(u);
    UserUpdateFields(u);
    assert upd.Keys <= UserFields;
  }

  lemma UserUpdateFields(u: Record)
    ensures var upd := UserUpdate(u);
      && upd.Keys + u.Keys == u.Keys + UserFields
      && upd["email"] == Str(CleanEmail(u))
      && upd["phone"] == Str(CleanPhone(GetOr(u, "phone", Str(""))))
      && upd["gender"] == Str(CleanGender(GetOr(u, "gender", Str(""))))
      && ("first_name" in upd <==> NeedsNameFallback(u, "first_name"))
      && ("first_name" in upd ==> upd["first_name"] == Str("Unknown"))
      && ("last_name" in upd <==> NeedsNameFallback(u, "last_name"))
      && ("last_name" in upd ==> upd["last_name"] == Str("User"))
      && upd.Keys <= UserFields
  {
  }

  /** After its update a user has all five fields, well typed: a non-empty
      name pair, a thirteen-character `+213` phone and a known gender. */
  lemma RepairedUserCanonical(u: Record)
    ensures var r := RepairUser(u);
      && r["email"].Str?
      && r["first_name"].Str? && r["first_name"].s != ""
      && r["last_name"].Str? && r["last_name"].s != ""
      && r["phone"].Str? && |r["phone"].s| == 13 && HasCountryPrefix(r["phone"].s)
      && r["gender"].Str? && r["gender"].s in {"Male", "Female", "Unknown"}
      && !NeedsNameFallback(r, "first_name") && !NeedsNameFallback(r, "last_name")
  {
    RepairUserSets(u);
  }

  /** The e-mail normalizer gives the same address on a repaired user
      whenever that address is valid or the names were kept. */
  lemma CleanEmailAfterRepair(u: Record)
    requires MatchesEmailPattern(CleanEmail(u))
          || (!NeedsNameFallback(u, "first_name") && !NeedsNameFallback(u, "last_name"))
    ensures CleanEmail(RepairUser(u)) == CleanEmail(u)
  {
    var r := RepairUser(u);
    RepairUserSets(u);
    assert GetOr(r, "email", Str("")) == Str(CleanEmail(u));
    if !MatchesEmailPattern(CleanEmail(u)) {
      assert GetOr(r, "first_name", Str("")) == GetOr(u, "first_name", Str(""));
      assert GetOr(r, "last_name", Str("")) == GetOr(u, "last_name", Str(""));
      assert SynthesizedEmail(r) == SynthesizedEmail(u);
    }
  }

  /** A `$set` whose every field already holds its value changes nothing. */
  lemma SetAlreadyApplied(r: Record, upd: map<string, Value>)
    requires forall k | k in upd :: k in r && r[k] == upd[k]
    ensures r + upd == r
  {
  }

  /** Repairing a user twice is repairing it once whenever its first repair
      left a valid address or needed no name fallback. (Otherwise the second
      pass synthesizes the address again from `Unknown`/`User`.) */
  lemma RepairUserIdempotent(u: Record)
    requires MatchesEmailPattern(CleanEmail(u))
          || (!NeedsNameFallback(u, "first_name") && !NeedsNameFallback(u, "last_name"))
    ensures RepairUser(RepairUser(u)) == RepairUser(u)
  {
    var r := RepairUser(u);
    RepairedUserUpdate(u);
    RewriteHeldFields(r);
  }

  /** Writing back the e-mail, phone and gender a record holds changes nothing. */
  lemma RewriteHeldFields(r: Record)
    requires "email" in r && "phone" in r && "gender" in r
    ensures r + map["email" := r["email"], "phone" := r["phone"], "gender" := r["gender"]] == r
  {
    SetAlreadyApplied(r, map["email" := r["email"], "phone" := r["phone"], "gender" := r["gender"]]);
  }

  /** The update built for a repaired user writes back the three values it
      already holds and no name. */
  lemma RepairedUserUpdate(u: Record)
    requires MatchesEmailPattern(CleanEmail(u))
          || (!NeedsNameFallback(u, "first_name") && !NeedsNameFallback(u, "last_name"))
    ensures var r := RepairUser(u);
      && "email" in r && "phone" in r && "gender" in r
      && UserUpdate(r) == map["email" := r["email"], "phone" := r["phone"], "gender" := r["gender"]]
  {
    var r := RepairUser(u);
    CleanEmailAfterRepair(u);
    RepairUserSets(u);
    CleanPhoneIdempotent(GetOr(u, "phone", Str("")));
    CleanGenderIdempotent(GetOr(u, "gender", Str("")));
    UserUpdateWhenClean(r);
  }

  /** A user already holding its normalized e-mail, phone and gender and two
      non-empty names gets an update that only writes those three back. */
  lemma UserUpdateWhenClean(r: Record)
    requires "email" in r && "phone" in r && "gender" in r
    requires r["email"] == Str(CleanEmail(r))
    requires r["phone"] == Str(CleanPhone(r["phone"]))
    requires r["gender"] == Str(CleanGender(r["gender"]))
    requires !NeedsNameFallback(r, "first_name") && !NeedsNameFallback(r, "last_name")
    ensures UserUpdate(r) == map["email" := r["email"], "phone" := r["phone"], "gender" := r["gender"]]
  {
    assert GetOr(r, "phone", Str("")) == r["phone"];
    assert GetOr(r, "gender", Str("")) == r["gender"];
  }

  /** A non-string address is replaced by the one synthesized from the names. */
  lemma NonStringEmailExample()
    ensures CleanEmail(map["email" := Num(123), "first_name" := Str("Jean"), "last_name" := Str("Dupont")])
        == "jean.dupont@example.com"
  {
    var u := map["email" := Num(123), "first_name" := Str("Jean"), "last_name" := Str("Dupont")];
    assert !GetOr(u, "email", Str("")).Str?;
    assert CleanEmail(u) == SynthesizedEmail(u);
    JeanDupontAddress(u);
  }

  lemma JeanDupontAddress(u: Record)
    requires GetOr(u, "first_name", Str("")) == Str("Jean")
    requires GetOr(u, "last_name", Str("")) == Str("Dupont")
    ensures SynthesizedEmail(u) == "jean.dupont@example.com"
  {
    assert Lower("Jean") == "jean";
    assert Lower("Dupont") == "dupont";
    assert SynthesizedEmail(u) == "jean" + "." + "dupont" + "@example.com";
    JeanDupontAddressJoined();
  }

  lemma JeanDupontAddressJoined()
    ensures "jean" + "." + "dupont" + "@example.com" == "jean.dupont@example.com"
  {
  }

  /** The synthesized address uses the raw names, not their fallbacks: a
      user without a first name gets `.dupont@example.com` and `Unknown`. */
  lemma EmailUsesRawNamesExample()
    ensures var r := RepairUser(map["last_name" := Str("Dupont")]);
      r["email"] == Str(".dupont@example.com") && r["first_name"] == Str("Unknown")
  {
    var u := map["last_name" := Str("Dupont")];
    assert GetOr(u, "email", Str("")) == Str("");
    assert !MatchesEmailPattern("");
    assert CleanEmail(u) == SynthesizedEmail(u);
    NoFirstNameDupontAddress(u);
    RepairUserSets(u);
  }

  lemma NoFirstNameDupontAddress(u: Record)
    requires "first_name" !in u
    requires GetOr(u, "last_name", Str("")) == Str("Dupont")
    ensures SynthesizedEmail(u) == ".dupont@example.com"
  {
    assert GetOr(u, "first_name", Str("")) == Str("");
    assert Lower("") == "";
    assert Lower("Dupont") == "dupont";
    assert SynthesizedEmail(u) == "" + "." + "dupont" + "@example.com";
    DupontAddressJoined();
  }

  lemma DupontAddressJoined()
    ensures "" + "." + "dupont" + "@example.com" == ".dupont@example.com"
  {
  }

  // ---------------------------------------------------------------------
  // Transactions
  // ---------------------------------------------------------------------

  const ValidStatuses: set<string> := {"SUCCESS", "PENDING", "FAILED"}

  predicate HasValidStatus(t: Record) {
    "status" in t && t["status"].Str? && t["status"].s in ValidStatuses
  }

  /** `{'amount': {'$lte': 0}}`, `{'amount': {'$exists': False}}` or
      `{'amount': None}`: a numeric amount (integer or float) at most zero,
      or none at all. */
  predicate HasUnrepairableAmount(t: Record)
    ensures HasUnrepairableAmount(t) <==>
      || "amount" !in t || t["amount"] == Null
      || (t["amount"].Num? && t["amount"].n <= 0) || (t["amount"].Float? && t["amount"].x <= 0.0)
  {
    var a := Field(t, "amount");
    a == Null || (a.Num? && a.n <= 0) || (a.Float? && a.x <= 0.0)
  }

  /** The timestamp is present and `str()` of it fails to parse. */
  predicate TimestampNeedsRepair(t: Record, parses: string -> bool) {
    "timestamp" in t && !parses(Render(t["timestamp"]))
  }

  predicate NeedsWrite(t: Record, parses: string -> bool) {
    TimestampNeedsRepair(t, parses) || !HasValidStatus(t)
  }

  /** The `$set` document built for one transaction; empty when the
      transaction is already clean, and then no write is issued. */
  function TxUpdate(t: Record, now: string, parses: string -> bool): (upd: map<string, Value>)
    ensures upd == map[] <==> !NeedsWrite(t, parses)
  {
    var withTimestamp := if TimestampNeedsRepair(t, parses) then map["timestamp" := Str(now)] else map[];
    if !HasValidStatus(t) then
      var upd := withTimestamp["status" := Str("PENDING")];
      assert "status" in upd;
      upd
    else
      assert TimestampNeedsRepair(t, parses) ==> "timestamp" in withTimestamp;
      withTimestamp
  }

  /** A transaction after its (possibly empty) update: its status is
      valid, it gains no field but `status`, and every field but the status
      and the timestamp is as it was. */
  function RepairTx(t: Record, now: string, parses: string -> bool): Record {
    t + TxUpdate(t, now, parses)
  }

  /** An empty `$set` changes nothing. */
  lemma NoUpdateNoChange(t: Record, now: string, parses: string -> bool)
    requires TxUpdate(t, now, parses) == map[]
    ensures RepairTx(t, now, parses) == t
  {
  }

  /** What the update does to a transaction: the status is valid and a
      valid one is untouched; a present timestamp that does not parse
      becomes `now`, an absent one stays absent; nothing else changes, and a
      transaction needing no write is unchanged. */
  lemma RepairTxSets(t: Record, now: string, parses: string -> bool)
    ensures var r := RepairTx(t, now, parses);
      && HasValidStatus(r)
      && (HasValidStatus(t) ==> r["status"] == t["status"])
      && (!HasValidStatus(t) ==> r["status"] == Str("PENDING"))
      && ("timestamp" in r <==> "timestamp" in t)
      && ("timestamp" in t ==>
            r["timestamp"] == if parses(Render(t["timestamp"])) then t["timestamp"] else Str(now))
      && (forall k | k != "timestamp" && k != "status" :: (k in r <==> k in t) && (k in t ==> r[k] == t[k]))
      && (!NeedsWrite(t, parses) ==> r == t)
  {
    var r := RepairTx(t, now, parses);
    if !NeedsWrite(t, parses) {
      assert TxUpdate(t, now, parses) == map[];
      assert r == t;
    }
  }
}
