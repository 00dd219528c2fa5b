/** Document values as the cleaning code and the store see them, and the
    small Python string helpers the normalizers rely on (ASCII only). */
module Values {

  datatype Option<T> = None | Some(value: T)

  /** A field value of a stored document. A `Float` carries its value and
      what Python's `str()` renders for it. `Other` stands for any value that
      is neither a string, a number nor null (a boolean, a list, a date,
      ...); it carries its `str()` too. */
  datatype Value =
    | Str(s: string)
    | Num(n: int)
    | Float(x: real, text: string)
    | Null
    | Other(text: string)

  /** A document: a missing key is an absent field. */
  type Record = map<string, Value>

  /** How MongoDB reads a field in `$group` keys, `$lookup` matching and
      equality-to-null filters: an absent field reads as null. */
  function Field(r: Record, k: string): Value {
    if k in r then r[k] else Null
  }

  /** Python's `dict.get(k, d)`. */
  function GetOr(r: Record, k: string, d: Value): Value {
    if k in r then r[k] else d
  }

  function IdOf(r: Record): Value {
    Field(r, "_id")
  }

  /** Every document of a collection carries an `_id`. */
  predicate HasIds(docs: seq<Record>) {
    forall i | 0 <= i < |docs| :: "_id" in docs[i]
  }

  /** The `_id`s of a collection are pairwise distinct. */
  predicate UniqueIds(docs: seq<Record>) {
    forall i, j | 0 <= i < j < |docs| :: IdOf(docs[i]) != IdOf(docs[j])
  }

  predicate IsDigit(c: char) {
    '0' <= c <= '9'
  }

  predicate IsAsciiLetter(c: char) {
    'a' <= c <= 'z' || 'A' <= c <= 'Z'
  }

  function DigitChar(d: nat): (c: char)
    requires d < 10
    ensures IsDigit(c)
  {
    ('0' as int + d) as char
  }

  function NatString(n: nat): (r: string)
    ensures |r| > 0
    ensures forall i | 0 <= i < |r| :: IsDigit(r[i])
    decreases n
  {
    if n < 10 then [DigitChar(n)] else NatString(n / 10) + [DigitChar(n % 10)]
  }

  /** Python's `str()` of an integer. */
  function DecimalString(n: int): (r: string)
    ensures |r| > 0
    ensures forall i | 0 <= i < |r| :: IsDigit(r[i]) || r[i] == '-'
  {
    if n < 0 then "-" + NatString(-n) else NatString(n)
  }

  /** Python's `str()` of a value. */
  function Render(v: Value): string {
    match v
    case Str(s) => s
    case Num(n) => DecimalString(n)
    case Float(_, t) => t
    case Null => "None"
    case Other(t) => t
  }

  function LowerChar(c: char): char {
    if 'A' <= c <= 'Z' then (c as int + 32) as char else c
  }

  function UpperChar(c: char): char {
    if 'a' <= c <= 'z' then (c as int - 32) as char else c
  }

  /** Python's `str.lower()`, ASCII letters only. */
  function Lower(s: string): string {
    seq(|s|, i requires 0 <= i < |s| => LowerChar(s[i]))
  }

  /** Python's `str.upper()`, ASCII letters only. */
  function Upper(s: string): string {
    seq(|s|, i requires 0 <= i < |s| => UpperChar(s[i]))
  }

  /** Case-insensitive equality, stated on lower-case letters. */
  predicate EqualsIgnoringCase(a: string, b: string) {
    |a| == |b| && forall i | 0 <= i < |a| :: LowerChar(a[i]) == LowerChar(b[i])
  }

  lemma SameUpperSameLower(c: char, d: char)
    ensures UpperChar(c) == UpperChar(d) <==> LowerChar(c) == LowerChar(d)
  {
  }

  /** Comparing upper-cased strings is comparing them ignoring case. */
  lemma UpperEqualIffEqualsIgnoringCase(a: string, b: string)
    ensures Upper(a) == Upper(b) <==> EqualsIgnoringCase(a, b)
  {
    if |a| == |b| {
      if Upper(a) == Upper(b) {
        forall i | 0 <= i < |a| ensures LowerChar(a[i]) == LowerChar(b[i]) {
          assert Upper(a)[i] == Upper(b)[i];
          SameUpperSameLower(a[i], b[i]);
        }
      }
      if EqualsIgnoringCase(a, b) {
        forall i | 0 <= i < |a| ensures Upper(a)[i] == Upper(b)[i] {
          SameUpperSameLower(a[i], b[i]);
        }
      }
    } else {
      assert |Upper(a)| != |Upper(b)|;
    }
  }
}
