/** The pieces of JSON text that signed commands are made of (`json.dumps` with `ensure_ascii=False`), each with a
    reader that takes it off the front of a text: strings as in section 7 of RFC 8259, integers, `null`. */
module JsonText {
  import opened Wrappers

  // ---------- Digits ----------

  function Digit(n: nat): char
    requires n < 10
  {
    '0' + n as char
  }

  predicate IsDigit(c: char) {
    '0' <= c <= '9'
  }

  function DigitValue(c: char): (n: nat)
    requires IsDigit(c)
    ensures n < 10
  {
    (c - '0') as nat
  }

  function HexDigit(n: nat): char
    requires n < 16
  {
    if n < 10 then Digit(n) else 'a' + (n - 10) as char
  }

  function HexValue(c: char): (n: Option<nat>)
    ensures n.Some? ==> n.value < 16
  {
    if IsDigit(c) then Some(DigitValue(c))
    else if 'a' <= c <= 'f' then Some((c - 'a') as nat + 10)
    else None
  }

  lemma HexRoundTrip(n: nat)
    requires n < 16
    ensures HexValue(HexDigit(n)) == Some(n)
  {
  }

  // ---------- Strings ----------

  const QUOTE: char := '"'
  const BACKSLASH: char := '\\'

  /** Characters with a two-character escape, and its second character. */
  function ShortEscape(c: char): Option<char> {
    if c == QUOTE then Some(QUOTE)
    else if c == BACKSLASH then Some(BACKSLASH)
    else if c == 10 as char then Some('n')
    else if c == 13 as char then Some('r')
    else if c == 9 as char then Some('t')
    else if c == 8 as char then Some('b')
    else if c == 12 as char then Some('f')
    else None
  }

  function Unescape(e: char): Option<char> {
    if e == QUOTE then Some(QUOTE)
    else if e == BACKSLASH then Some(BACKSLASH)
    else if e == 'n' then Some(10 as char)
    else if e == 'r' then Some(13 as char)
    else if e == 't' then Some(9 as char)
    else if e == 'b' then Some(8 as char)
    else if e == 'f' then Some(12 as char)
    else None
  }

  function EscapeChar(c: char): (e: string)
    ensures e != []
  {
    var short := ShortEscape(c);
    if short.Some? then [BACKSLASH, short.value]
    else if c as int < 0x20 then [BACKSLASH, 'u', '0', '0', HexDigit(c as int / 16), HexDigit(c as int % 16)]
    else [c]
  }

  function EscapeAll(s: string): string {
    if s == [] then [] else EscapeChar(s[0]) + EscapeAll(s[1..])
  }

  function PrintString(s: string): string {
    [QUOTE] + EscapeAll(s) + [QUOTE]
  }

  /** The character escaped at the start of `t`, and what follows it; `None` at a closing quote or on malformed text. */
  function ReadChar(t: string): (r: Option<(char, string)>)
    ensures r.Some? ==> |r.value.1| < |t|
  {
    if t == [] || t[0] == QUOTE then None
    else if t[0] != BACKSLASH then if t[0] as int < 0x20 then None else Some((t[0], t[1..]))
    else if |t| >= 2 && t[1] != 'u' then
      var c :- Unescape(t[1]);
      Some((c, t[2..]))
    else if |t| >= 6 && t[2] == '0' && t[3] == '0' then
      var hi :- HexValue(t[4]);
      var lo :- HexValue(t[5]);
      Some(((hi * 16 + lo) as char, t[6..]))
    else None
  }

  function ReadBody(t: string): Option<(string, string)>
    decreases |t|
  {
    if t != [] && t[0] == QUOTE then Some(([], t[1..]))
    else
      var (c, rest) :- ReadChar(t);
      var (s, after) :- ReadBody(rest);
      Some(([c] + s, after))
  }

  function ReadString(t: string): Option<(string, string)> {
    if t != [] && t[0] == QUOTE then ReadBody(t[1..]) else None
  }

  lemma ReadsEscaped(c: char, t: string)
    ensures ReadChar(EscapeChar(c) + t) == Some((c, t))
    ensures (EscapeChar(c) + t)[0] != QUOTE
  {
    var e := EscapeChar(c) + t;
    assert e[|EscapeChar(c)|..] == t;
    if ShortEscape(c).None? && c as int < 0x20 {
      HexRoundTrip(c as int / 16);
      HexRoundTrip(c as int % 16);
      var hi, lo := c as int / 16, c as int % 16;
      assert hi * 16 + lo == c as int;
      assert (hi * 16 + lo) as char == c;
      assert EscapeChar(c) == [BACKSLASH, 'u', '0', '0', HexDigit(hi), HexDigit(lo)];
      assert e[4] == HexDigit(hi) && e[5] == HexDigit(lo);
    } else if ShortEscape(c).Some? {
      assert e == [BACKSLASH, ShortEscape(c).value] + t;
      assert e[2..] == t;
    }
  }

  /** Of all the spellings a reader takes, `json.dumps` prints the shortest, and there is only one shortest. */
  lemma EscapesAreShortest(c: char, e: string, t: string)
    requires ReadChar(e + t) == Some((c, t))
    ensures |EscapeChar(c)| <= |e|
    ensures |e| == |EscapeChar(c)| ==> e == EscapeChar(c)
  {
    hide HexDigit, HexValue;
    SameRest(e, t);
    var all := e + t;
    if e[0] == BACKSLASH {
      assert e[1] == all[1];
      if e[1] == 'u' {
        assert e == [e[0], e[1], e[2], e[3], e[4], e[5]];
        assert e[2] == all[2] && e[3] == all[3] && e[4] == all[4] && e[5] == all[5];
        HexIsUnique(e[4]);
        HexIsUnique(e[5]);
        var hi, lo := HexValue(e[4]).value, HexValue(e[5]).value;
        assert c == (hi * 16 + lo) as char;
        assert c as int == hi * 16 + lo;
        assert c as int / 16 == hi && c as int % 16 == lo;
      } else {
        assert e == [e[0], e[1]];
        UnescapeIsUnique(e[1]);
      }
    } else {
      assert e == [c];
    }
  }

  /** How much text an escape takes up. */
  lemma SameRest(e: string, t: string)
    requires ReadChar(e + t).Some? && ReadChar(e + t).value.1 == t
    ensures e != [] && |e| == (if e[0] != BACKSLASH then 1 else if e[1..2] == "u" then 6 else 2)
  {
    var all := e + t;
    assert |all| - |t| == |e|;
  }

  lemma HexIsUnique(c: char)
    ensures HexValue(c).Some? ==> HexDigit(HexValue(c).value) == c
  {
  }

  lemma UnescapeIsUnique(e: char)
    ensures Unescape(e).Some? ==> ShortEscape(Unescape(e).value) == Some(e)
  {
  }

  lemma {:induction false} ReadsBody(s: string, t: string)
    ensures ReadBody(EscapeAll(s) + [QUOTE] + t) == Some((s, t))
    decreases |s|
  {
    hide EscapeChar, ReadChar;
    if s != [] {
      var rest := EscapeAll(s[1..]) + [QUOTE] + t;
      ReadsBody(s[1..], t);
      ReadsEscaped(s[0], rest);
      var all := EscapeAll(s) + [QUOTE] + t;
      assert all == EscapeChar(s[0]) + rest;
      assert all[0] != QUOTE && ReadChar(all) == Some((s[0], rest));
      assert s == [s[0]] + s[1..];
    } else {
      assert EscapeAll(s) + [QUOTE] + t == [QUOTE] + t;
    }
  }

  lemma ReadsString(s: string, t: string)
    ensures ReadString(PrintString(s) + t) == Some((s, t))
  {
    hide EscapeAll, ReadBody;
    ReadsBody(s, t);
    assert (PrintString(s) + t)[1..] == EscapeAll(s) + [QUOTE] + t;
  }

  // ---------- Integers ----------

  function PrintNat(n: nat): (s: string)
    ensures s != [] && forall c <- s :: IsDigit(c)
  {
    if n < 10 then [Digit(n)] else PrintNat(n / 10) + [Digit(n % 10)]
  }

  function PrintInt(n: int): string {
    if n < 0 then "-" + PrintNat(-n) else PrintNat(n)
  }

  function DigitCount(t: string): (k: nat)
    ensures k <= |t|
    ensures forall i :: 0 <= i < k ==> IsDigit(t[i])
  {
    if t == [] || !IsDigit(t[0]) then 0 else 1 + DigitCount(t[1..])
  }

  function NatValue(s: string): nat
    requires forall c <- s :: IsDigit(c)
  {
    if s == [] then 0
    else
      assert s[|s| - 1] in s;
      assert forall c <- s[..|s| - 1] :: c in s;
      NatValue(s[..|s| - 1]) * 10 + DigitValue(s[|s| - 1])
  }

  function ReadNat(t: string): Option<(int, string)> {
    var k := DigitCount(t);
    if k == 0 then None else Some((NatValue(t[..k]), t[k..]))
  }

  function ReadInt(t: string): Option<(int, string)> {
    if t != [] && t[0] == '-' then
      var (n, rest) :- ReadNat(t[1..]);
      Some((-n, rest))
    else ReadNat(t)
  }

  predicate NoDigitFirst(t: string) {
    t == [] || !IsDigit(t[0])
  }

  lemma {:induction false} ValueOfPrinted(n: nat)
    ensures NatValue(PrintNat(n)) == n
  {
    if n >= 10 {
      ValueOfPrinted(n / 10);
      var s := PrintNat(n);
      assert s[..|s| - 1] == PrintNat(n / 10);
      assert s[|s| - 1] == Digit(n % 10);
    } else {
      assert PrintNat(n)[..0] == [];
    }
  }

  lemma {:induction false} CountsDigits(s: string, t: string)
    requires forall c <- s :: IsDigit(c)
    requires NoDigitFirst(t)
    ensures DigitCount(s + t) == |s|
    decreases |s|
  {
    if s == [] {
      assert s + t == t;
    } else {
      assert s[0] in s;
      assert forall c <- s[1..] :: c in s;
      CountsDigits(s[1..], t);
      assert (s + t)[1..] == s[1..] + t;
    }
  }

  lemma ReadsNat(n: nat, t: string)
    requires NoDigitFirst(t)
    ensures ReadNat(PrintNat(n) + t) == Some((n, t))
  {
    hide PrintNat, NatValue, DigitCount;
    var s := PrintNat(n);
    CountsDigits(s, t);
    ValueOfPrinted(n);
    assert (s + t)[..|s|] == s && (s + t)[|s|..] == t;
  }

  lemma ReadsInt(n: int, t: string)
    requires NoDigitFirst(t)
    ensures ReadInt(PrintInt(n) + t) == Some((n, t))
  {
    hide PrintNat, ReadNat;
    if n < 0 {
      ReadsNat(-n, t);
      assert (PrintInt(n) + t)[1..] == PrintNat(-n) + t;
    } else {
      ReadsNat(n, t);
      assert PrintNat(n)[0] in PrintNat(n);
    }
  }

  lemma {:induction false} DigitsAreShortest(e: string)
    requires e != [] && forall c <- e :: IsDigit(c)
    ensures var s := PrintNat(NatValue(e));
            |s| <= |e| && (|s| == |e| ==> s == e)
    decreases |e|
  {
    var n, k := NatValue(e), |e| - 1;
    var high, last := e[..k], DigitValue(e[k]);
    assert e == high + [Digit(last)];
    if high != [] {
      assert forall c <- high :: c in e;
      DigitsAreShortest(high);
      assert n == NatValue(high) * 10 + last && n / 10 == NatValue(high) && n % 10 == last;
    } else {
      assert e[..k] == [] && NatValue([]) == 0;
    }
  }

  /** `json.dumps` prints the shortest decimal of an integer, and there is only one shortest. */
  lemma IntsAreShortest(n: int, e: string)
    requires ReadInt(e) == Some((n, ""))
    ensures |PrintInt(n)| <= |e|
    ensures |e| == |PrintInt(n)| ==> e == PrintInt(n)
  {
    hide PrintNat, NatValue;
    var digits := if e[0] == '-' then e[1..] else e;
    var k := DigitCount(digits);
    assert ReadNat(digits).Some? && ReadNat(digits).value.1 == "";
    assert |digits[k..]| == |digits| - k == 0;
    assert digits[..k] == digits;
    assert forall c <- digits :: IsDigit(c);
    DigitsAreShortest(digits);
    if e[0] == '-' {
      assert e == "-" + digits;
    }
  }

  // ---------- Fixed text and optional values ----------

  function Expect(text: string, t: string): Option<string> {
    if text <= t then Some(t[|text|..]) else None
  }

  lemma Expects(text: string, t: string)
    ensures Expect(text, text + t) == Some(t)
  {
  }

  function PrintOptString(v: Option<string>): string {
    match v
    case None => "null"
    case Some(s) => PrintString(s)
  }

  function PrintOptInt(v: Option<int>): string {
    match v
    case None => "null"
    case Some(n) => PrintInt(n)
  }

  function ReadOptString(t: string): Option<(Option<string>, string)> {
    if "null" <= t then Some((None, t[4..]))
    else
      var (s, rest) :- ReadString(t);
      Some((Some(s), rest))
  }

  function ReadOptInt(t: string): Option<(Option<int>, string)> {
    if "null" <= t then Some((None, t[4..]))
    else
      var (n, rest) :- ReadInt(t);
      Some((Some(n), rest))
  }

  lemma ReadsOptString(v: Option<string>, t: string)
    ensures ReadOptString(PrintOptString(v) + t) == Some((v, t))
  {
    hide ReadString, EscapeAll;
    match v {
      case None =>
      case Some(s) =>
        ReadsString(s, t);
        assert (PrintString(s) + t)[0] == QUOTE;
    }
  }

  lemma ReadsOptInt(v: Option<int>, t: string)
    requires NoDigitFirst(t)
    ensures ReadOptInt(PrintOptInt(v) + t) == Some((v, t))
  {
    hide ReadInt, PrintNat;
    match v {
      case None =>
      case Some(n) =>
        ReadsInt(n, t);
        var first := (PrintInt(n) + t)[0];
        if n >= 0 {
          assert PrintNat(n)[0] in PrintNat(n);
        }
        assert first != 'n';
    }
  }

  // ---------- Objects ----------

  /** A name and the text of its value. */
  datatype Member = Member(name: string, value: string)

  function PrintMembers(ms: seq<Member>): string {
    if ms == [] then ""
    else Label(ms[0].name) + ms[0].value + (if |ms| == 1 then "" else "," + PrintMembers(ms[1..]))
  }

  /** `json.dumps` of a dictionary, without spaces. */
  function PrintObject(ms: seq<Member>): string {
    "{" + PrintMembers(ms) + "}"
  }

  function Label(name: string): string {
    PrintString(name) + ":"
  }

  /** The members from `k` on, with what follows them. */
  function From(ms: seq<Member>, k: nat): string
    requires k <= |ms|
  {
    if k == |ms| then "}" else "," + (PrintMembers(ms[k..]) + "}")
  }

  lemma FirstMember(ms: seq<Member>, k: nat)
    requires k < |ms|
    ensures PrintMembers(ms[k..]) + "}" == Label(ms[k].name) + (ms[k].value + From(ms, k + 1))
    ensures NoDigitFirst(From(ms, k + 1))
  {
    hide PrintString;
    assert ms[k..][1..] == ms[k + 1..];
  }

  /** The order of strings, character by character. */
  predicate Before(a: string, b: string) {
    if b == "" then false
    else if a == "" then true
    else if a[0] != b[0] then a[0] < b[0]
    else Before(a[1..], b[1..])
  }
}
