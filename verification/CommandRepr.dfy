/** The signed form of a cloud command (`canonical_repr` and `signing_input` of `solar_monitor/cloud/command_verify.py`)
    and a decoder that inverts it: what is signed is exactly the fields. */
module CommandRepr {
  import opened Wrappers
  import opened Crc
  import opened JsonText
  import Utf8

  // ---------- Time stamps ----------

  /** Wall-clock fields of a `datetime`. */
  datatype Wall = Wall(year: nat, month: nat, day: nat, hour: nat, minute: nat, second: nat, micro: nat) {
    predicate Valid() {
      year < 10000 && month < 100 && day < 100 && hour < 100 && minute < 100 && second < 100 && micro < 1000000
    }
  }

  function Pow10(w: nat): nat {
    if w == 0 then 1 else 10 * Pow10(w - 1)
  }

  /** Zero-padded decimal of a fixed width. */
  function Pad(n: nat, w: nat): (s: string)
    ensures |s| == w
  {
    if w == 0 then [] else Pad(n / 10, w - 1) + [Digit(n % 10)]
  }

  function Unpad(s: string): Option<nat> {
    if s == [] then Some(0)
    else if !IsDigit(s[|s| - 1]) then None
    else
      var high :- Unpad(s[..|s| - 1]);
      Some(high * 10 + DigitValue(s[|s| - 1]))
  }

  lemma {:induction false} UnpadsPadded(n: nat, w: nat)
    requires n < Pow10(w)
    ensures Unpad(Pad(n, w)) == Some(n)
    decreases w
  {
    if w > 0 {
      UnpadsPadded(n / 10, w - 1);
      var s := Pad(n, w);
      assert s[..|s| - 1] == Pad(n / 10, w - 1) && s[|s| - 1] == Digit(n % 10);
    }
  }

  const UTC_SUFFIX: string := "+00:00"

  function IsoDate(t: Wall): string {
    Pad(t.year, 4) + "-" + Pad(t.month, 2) + "-" + Pad(t.day, 2) + "T"
  }

  function IsoTime(t: Wall): string {
    Pad(t.hour, 2) + ":" + Pad(t.minute, 2) + ":" + Pad(t.second, 2)
  }

  /** `isoformat()` of the wall clock stamped as UTC. */
  function IsoUtc(t: Wall): string {
    IsoDate(t) + IsoTime(t) + (if t.micro == 0 then "" else "." + Pad(t.micro, 6)) + UTC_SUFFIX
  }

  /** Digits in the right places, the separators between them, and microseconds only where there are some. */
  function ParseIsoUtc(s: string): Option<Wall> {
    if |s| != 25 && |s| != 32 then None
    else if s[4] != '-' || s[7] != '-' || s[10] != 'T' || s[13] != ':' || s[16] != ':' then None
    else if (|s| == 32 && s[19] != '.') || s[|s| - 6..] != UTC_SUFFIX then None
    else
      var year :- Unpad(s[..4]);
      var month :- Unpad(s[5..7]);
      var day :- Unpad(s[8..10]);
      var hour :- Unpad(s[11..13]);
      var minute :- Unpad(s[14..16]);
      var second :- Unpad(s[17..19]);
      if |s| == 25 then Some(Wall(year, month, day, hour, minute, second, 0))
      else
        var micro :- Unpad(s[20..26]);
        if micro == 0 then None else Some(Wall(year, month, day, hour, minute, second, micro))
  }

  lemma PowersOfTen()
    ensures Pow10(2) == 100 && Pow10(4) == 10000 && Pow10(6) == 1000000
  {
    assert Pow10(2) == 100;
    assert Pow10(4) == 10000;
  }

  lemma DateSlices(t: Wall)
    ensures var s := IsoDate(t);
            && |s| == 11 && s[..4] == Pad(t.year, 4) && s[5..7] == Pad(t.month, 2) && s[8..10] == Pad(t.day, 2)
            && s[4] == '-' && s[7] == '-' && s[10] == 'T'
  {
    hide Pad;
  }

  lemma TimeSlices(t: Wall)
    ensures var s := IsoTime(t);
            && |s| == 8 && s[0..2] == Pad(t.hour, 2) && s[3..5] == Pad(t.minute, 2) && s[6..8] == Pad(t.second, 2)
            && s[2] == ':' && s[5] == ':'
  {
    hide Pad;
  }

  lemma IsoSlices(t: Wall)
    ensures var s := IsoUtc(t);
            && |s| == (if t.micro == 0 then 25 else 32)
            && s[..4] == Pad(t.year, 4) && s[5..7] == Pad(t.month, 2) && s[8..10] == Pad(t.day, 2)
            && s[11..13] == Pad(t.hour, 2) && s[14..16] == Pad(t.minute, 2) && s[17..19] == Pad(t.second, 2)
            && (t.micro != 0 ==> s[20..26] == Pad(t.micro, 6) && s[19] == '.')
            && s[4] == '-' && s[7] == '-' && s[10] == 'T' && s[13] == ':' && s[16] == ':'
            && s[|s| - 6..] == UTC_SUFFIX
  {
    hide Pad, IsoDate, IsoTime;
    DateSlices(t);
    TimeSlices(t);
    var s, date, time := IsoUtc(t), IsoDate(t), IsoTime(t);
    assert s[..11] == date && s[11..19] == time;
    assert s[..4] == date[..4] && s[5..7] == date[5..7] && s[8..10] == date[8..10];
    assert s[11..13] == time[0..2] && s[14..16] == time[3..5] && s[17..19] == time[6..8];
    assert s[4] == date[4] && s[7] == date[7] && s[10] == date[10] && s[13] == time[2] && s[16] == time[5];
  }

  lemma ParsesIso(t: Wall)
    requires t.Valid()
    ensures ParseIsoUtc(IsoUtc(t)) == Some(t)
  {
    hide Pad, IsoUtc, Unpad;
    IsoSlices(t);
    PowersOfTen();
    UnpadsPadded(t.year, 4);
    UnpadsPadded(t.month, 2);
    UnpadsPadded(t.day, 2);
    UnpadsPadded(t.hour, 2);
    UnpadsPadded(t.minute, 2);
    UnpadsPadded(t.second, 2);
    if t.micro != 0 {
      UnpadsPadded(t.micro, 6);
    }
  }

  lemma {:induction false} PadsUnpadded(s: string)
    ensures Unpad(s).Some? ==> Pad(Unpad(s).value, |s|) == s
    decreases |s|
  {
    if s != [] && Unpad(s).Some? {
      var k := |s| - 1;
      PadsUnpadded(s[..k]);
      assert s == s[..k] + [Digit(DigitValue(s[k]))];
    }
  }

  /** There is only one spelling: what reads as a time stamp is its print. */
  lemma IsoIsUnique(s: string)
    ensures ParseIsoUtc(s).Some? ==> IsoUtc(ParseIsoUtc(s).value) == s
  {
    hide Pad, Unpad;
    if ParseIsoUtc(s).Some? {
      PadsUnpadded(s[..4]);
      PadsUnpadded(s[5..7]);
      PadsUnpadded(s[8..10]);
      PadsUnpadded(s[11..13]);
      PadsUnpadded(s[14..16]);
      PadsUnpadded(s[17..19]);
      var t := ParseIsoUtc(s).value;
      assert IsoDate(t) == s[..11];
      assert IsoTime(t) == s[11..19];
      if |s| == 32 {
        PadsUnpadded(s[20..26]);
        assert "." + Pad(t.micro, 6) == s[19..26];
        assert s == s[..11] + s[11..19] + s[19..26] + s[26..];
      } else {
        assert s == s[..11] + s[11..19] + "" + s[19..];
      }
    }
  }

  // ---------- Commands ----------

  /** `offset`: seconds east of UTC, zero for UTC and for a naive stamp read as UTC. */
  datatype Stamp = Stamp(wall: Wall, offset: int)

  datatype Command = Command(
    id: int,
    applianceId: int,
    kind: string,
    targetVersion: Option<string>,
    targetBackupId: Option<int>,
    payloadJson: Option<string>,
    queuedAt: Stamp,
    nonce: string)

  // The names, as `json.dumps(..., sort_keys=True)` orders them.
  const APPLIANCE_ID: string := "appliance_id"
  const ID: string := "id"
  const ISSUER: string := "issuer"
  const KIND: string := "kind"
  const NONCE: string := "nonce"
  const PAYLOAD_JSON: string := "payload_json"
  const QUEUED_AT: string := "queued_at"
  const TARGET_BACKUP_ID: string := "target_backup_id"
  const TARGET_VERSION: string := "target_version"
  const CLOUD: string := "cloud"

  function Members(c: Command): seq<Member> {
    [Member(APPLIANCE_ID, PrintInt(c.applianceId)),
     Member(ID, PrintInt(c.id)),
     Member(ISSUER, PrintString(CLOUD)),
     Member(KIND, PrintString(c.kind)),
     Member(NONCE, PrintString(c.nonce)),
     Member(PAYLOAD_JSON, PrintOptString(c.payloadJson)),
     Member(QUEUED_AT, PrintString(IsoUtc(c.queuedAt.wall))),
     Member(TARGET_BACKUP_ID, PrintOptInt(c.targetBackupId)),
     Member(TARGET_VERSION, PrintOptString(c.targetVersion))]
  }

  /** `json.dumps(..., sort_keys=True, separators=(",", ":"))`. */
  function CanonicalRepr(c: Command): string {
    PrintObject(Members(c))
  }

  /** Takes off the name in front of a value ... */
  function SkipName(name: string, t: string): Option<string> {
    var (read, t) :- ReadString(t);
    if read == name then Expect(":", t) else None
  }

  /** ... and the comma in front of the name. */
  function Skip(name: string, t: string): Option<string> {
    var t :- Expect(",", t);
    SkipName(name, t)
  }

  /** Reads a command back, taking its time stamp as UTC. */
  function Decode(t: string): Option<Command> {
    var t :- Expect("{", t);
    var t :- SkipName(APPLIANCE_ID, t);
    var (applianceId, t) :- ReadInt(t);
    var t :- Skip(ID, t);
    var (id, t) :- ReadInt(t);
    var t :- Skip(ISSUER, t);
    var (issuer, t) :- ReadString(t);
    var t :- Skip(KIND, t);
    var (kind, t) :- ReadString(t);
    var t :- Skip(NONCE, t);
    var (nonce, t) :- ReadString(t);
    var t :- Skip(PAYLOAD_JSON, t);
    var (payloadJson, t) :- ReadOptString(t);
    var t :- Skip(QUEUED_AT, t);
    var (iso, t) :- ReadString(t);
    var t :- Skip(TARGET_BACKUP_ID, t);
    var (targetBackupId, t) :- ReadOptInt(t);
    var t :- Skip(TARGET_VERSION, t);
    var (targetVersion, t) :- ReadOptString(t);
    var wall :- ParseIsoUtc(iso);
    if t == "}" && issuer == CLOUD then
      Some(Command(id, applianceId, kind, targetVersion, targetBackupId, payloadJson, Stamp(wall, 0), nonce))
    else None
  }

  /** The canonical form is the object of these members, each name with the text of the field it names ... */
  lemma CanonicalReprIsObject(c: Command)
    ensures CanonicalRepr(c) == PrintObject([
              Member("appliance_id", PrintInt(c.applianceId)),
              Member("id", PrintInt(c.id)),
              Member("issuer", PrintString("cloud")),
              Member("kind", PrintString(c.kind)),
              Member("nonce", PrintString(c.nonce)),
              Member("payload_json", PrintOptString(c.payloadJson)),
              Member("queued_at", PrintString(IsoUtc(c.queuedAt.wall))),
              Member("target_backup_id", PrintOptInt(c.targetBackupId)),
              Member("target_version", PrintOptString(c.targetVersion))])
  {
    hide PrintObject, PrintInt, PrintString, PrintOptString, PrintOptInt, IsoUtc;
  }

  /** ... and in alphabetical order. */
  lemma NamesAscend(c: Command)
    ensures var ms := Members(c);
            forall i :: 0 <= i < |ms| - 1 ==> Before(ms[i].name, ms[i + 1].name)
  {
    hide Before;
    NamesAscend1();
    NamesAscend2();
    NamesAscend3();
    NamesAscend4();
    NamesAscend5();
    NamesAscend6();
    NamesAscend7();
    NamesAscend8();
  }

  lemma NamesAscend1()
    ensures Before(APPLIANCE_ID, ID)
  {
  }

  lemma NamesAscend2()
    ensures Before(ID, ISSUER)
  {
  }

  lemma NamesAscend3()
    ensures Before(ISSUER, KIND)
  {
  }

  lemma NamesAscend4()
    ensures Before(KIND, NONCE)
  {
  }

  lemma NamesAscend5()
    ensures Before(NONCE, PAYLOAD_JSON)
  {
  }

  lemma NamesAscend6()
    ensures Before(PAYLOAD_JSON, QUEUED_AT)
  {
  }

  lemma NamesAscend7()
    ensures Before(QUEUED_AT, TARGET_BACKUP_ID)
  {
  }

  lemma NamesAscend8()
    ensures Before(TARGET_BACKUP_ID, TARGET_VERSION)
  {
    assert Before("backup_id", "version");
    assert Before("t_backup_id", "t_version");
    assert Before("get_backup_id", "get_version");
  }

  /** The command as it is signed: the offset of its time stamp is not part of it. */
  function AsUtc(c: Command): Command {
    c.(queuedAt := Stamp(c.queuedAt.wall, 0))
  }

  /** What stands in front of a value is taken off. */
  lemma Reads(ms: seq<Member>, k: nat)
    requires k < |ms|
    ensures PrintMembers(ms[k..]) + "}" == Label(ms[k].name) + (ms[k].value + From(ms, k + 1))
    ensures SkipName(ms[k].name, PrintMembers(ms[k..]) + "}") == Some(ms[k].value + From(ms, k + 1))
    ensures Skip(ms[k].name, From(ms, k)) == Some(ms[k].value + From(ms, k + 1))
    ensures NoDigitFirst(From(ms, k + 1))
  {
    hide PrintMembers, Expect, PrintString, ReadString;
    FirstMember(ms, k);
    var rest := ms[k].value + From(ms, k + 1);
    ReadsString(ms[k].name, ":" + rest);
    assert Label(ms[k].name) + rest == PrintString(ms[k].name) + (":" + rest);
    Expects(":", rest);
    Expects(",", PrintMembers(ms[k..]) + "}");
  }

  lemma Ends(ms: seq<Member>)
    ensures From(ms, |ms|) == "}"
  {
  }

  lemma DecodeInverts(c: Command)
    requires c.queuedAt.wall.Valid()
    ensures Decode(CanonicalRepr(c)) == Some(AsUtc(c))
  {
    hide PrintInt, PrintString, PrintOptString, PrintOptInt, IsoUtc, Label, PrintMembers, From;
    hide Expect, Skip, SkipName, ReadInt, ReadString, ReadOptString, ReadOptInt, ParseIsoUtc;
    hide APPLIANCE_ID, ID, ISSUER, KIND, NONCE, PAYLOAD_JSON, QUEUED_AT, TARGET_BACKUP_ID, TARGET_VERSION, CLOUD;
    var ms := Members(c);
    assert ms[0..] == ms;
    assert CanonicalRepr(c) == "{" + (PrintMembers(ms) + "}");
    Expects("{", PrintMembers(ms) + "}");
    Reads(ms, 0);
    ReadsInt(c.applianceId, From(ms, 1));
    Reads(ms, 1);
    ReadsInt(c.id, From(ms, 2));
    Reads(ms, 2);
    ReadsString(CLOUD, From(ms, 3));
    Reads(ms, 3);
    ReadsString(c.kind, From(ms, 4));
    Reads(ms, 4);
    ReadsString(c.nonce, From(ms, 5));
    Reads(ms, 5);
    ReadsOptString(c.payloadJson, From(ms, 6));
    Reads(ms, 6);
    ReadsString(IsoUtc(c.queuedAt.wall), From(ms, 7));
    Reads(ms, 7);
    ReadsOptInt(c.targetBackupId, From(ms, 8));
    Reads(ms, 8);
    ReadsOptString(c.targetVersion, From(ms, 9));
    Ends(ms);
    ParsesIso(c.queuedAt.wall);
  }

  /** Two commands have the same signed form exactly when they agree in every field but the offset of the time stamp. */
  lemma SameReprExactly(c: Command, d: Command)
    requires c.queuedAt.wall.Valid() && d.queuedAt.wall.Valid()
    ensures CanonicalRepr(c) == CanonicalRepr(d) <==> AsUtc(c) == AsUtc(d)
  {
    hide Decode;
    DecodeInverts(c);
    DecodeInverts(d);
    OffsetIsNotSigned(c);
    OffsetIsNotSigned(d);
  }

  lemma OffsetIsNotSigned(c: Command)
    ensures CanonicalRepr(c) == CanonicalRepr(AsUtc(c))
  {
  }

  /** The verifier's gate on `queued_at`: only stamps without an offset go on to the signature check. */
  predicate UtcOnly(c: Command) {
    c.queuedAt.offset == 0
  }

  // ---------- The bytes that are signed ----------

  /** The bytes of `wattpost-cmd-v2` and a newline. */
  const DOMAIN: seq<byte> := [119, 97, 116, 116, 112, 111, 115, 116, 45, 99, 109, 100, 45, 118, 50, 10]

  lemma DomainSpelled()
    ensures |DOMAIN| == 16
    ensures forall i :: 0 <= i < 16 ==> DOMAIN[i] == "wattpost-cmd-v2\n"[i] as int
  {
  }

  function SigningInput(c: Command): seq<byte> {
    DOMAIN + Utf8.Encode(CanonicalRepr(c))
  }

  /** Behind the gate, the signed bytes determine the command. */
  lemma SigningInputIsInjective(c: Command, d: Command)
    requires c.queuedAt.wall.Valid() && d.queuedAt.wall.Valid() && UtcOnly(c) && UtcOnly(d)
    requires SigningInput(c) == SigningInput(d)
    ensures c == d
  {
    hide CanonicalRepr, Utf8.Encode;
    assert SigningInput(c)[|DOMAIN|..] == Utf8.Encode(CanonicalRepr(c));
    assert SigningInput(d)[|DOMAIN|..] == Utf8.Encode(CanonicalRepr(d));
    Utf8.EncodeIsInjective(CanonicalRepr(c), CanonicalRepr(d));
    SameReprExactly(c, d);
  }

  /** The gate is needed: without it the signed bytes would not determine the time stamp. */
  lemma WithoutTheGate(c: Command, offset: int)
    ensures SigningInput(c.(queuedAt := Stamp(c.queuedAt.wall, offset))) == SigningInput(c)
  {
    hide Utf8.Encode;
  }

  /** A byte of a JWT signing input: base64url characters and dots. */
  predicate JwtByte(b: byte) {
    ('A' as int <= b <= 'Z' as int) || ('a' as int <= b <= 'z' as int) || ('0' as int <= b <= '9' as int)
    || b == '-' as int || b == '_' as int || b == '.' as int
  }

  /** Nothing signed as a command could have been signed as a token. */
  lemma DomainSeparates(c: Command, token: seq<byte>)
    requires forall i :: 0 <= i < |token| ==> JwtByte(token[i])
    ensures SigningInput(c) != token
  {
    hide CanonicalRepr, Utf8.Encode;
    assert SigningInput(c)[15] == 10;
  }
}
