/** Configuration export and restore of `solar_monitor/api/backup.py`: what a round trip through a backup changes. */
module ConfigRestore {
  import opened Wrappers
  import opened Redaction

  const CLOUD: Key := Text("cloud")

  const ALLOWED: seq<string> :=
    ["db_path", "transports", "devices", "exporters",
     "notification_transports", "alerts", "alerts_seeded",
     "quiet_hours", "forecast", "weather", "cloud", "gps",
     "location", "bank", "backup", "discovery", "local_telemetry",
     "history", "solar_pause", "smart_plugs", "mqtt_in",
     "hotspot", "update", "kiosk", "web"]

  predicate Allowed(key: Key) {
    key.Text? && key.name in ALLOWED
  }

  // ---------- Export ----------

  function WithoutKey(entries: seq<Entry>, key: Key): seq<Entry> {
    if entries == [] then []
    else (if entries[0].key == key then [] else [entries[0]]) + WithoutKey(entries[1..], key)
  }

  /** A block that is missing or null. */
  function Present(v: Option<Value>): Option<Value> {
    if v.Some? && v.value != Null then v else None
  }

  /** The exported configuration: everything redacted except the cloud block, which moves to the end. */
  function Export(config: seq<Entry>): seq<Entry> {
    var cloud := Present(Get(config, CLOUD));
    RedactEntries(WithoutKey(config, CLOUD)) + if cloud.Some? then [Entry(CLOUD, cloud.value)] else []
  }

  // ---------- Restore ----------

  function Sanitized(raw: seq<Entry>): seq<Entry> {
    if raw == [] then []
    else (if Allowed(raw[0].key) then [Entry(raw[0].key, Redact(raw[0].value))] else []) + Sanitized(raw[1..])
  }

  function DroppedKeys(raw: seq<Entry>): seq<Key> {
    if raw == [] then [] else (if Allowed(raw[0].key) then [] else [raw[0].key]) + DroppedKeys(raw[1..])
  }

  function SanitizeCrumbs(raw: seq<Entry>): seq<Path> {
    if raw == [] then []
    else (if Allowed(raw[0].key) then Found(raw[0].value, [Field(raw[0].key)]) else []) + SanitizeCrumbs(raw[1..])
  }

  method SanitizeRestoredConfig(raw: seq<Entry>) returns (out: seq<Entry>, dropped: seq<Key>, redacted: seq<Path>)
    ensures out == Sanitized(raw) && dropped == DroppedKeys(raw) && redacted == SanitizeCrumbs(raw)
  {
    hide Allowed, Found, Redact, Sanitized, DroppedKeys, SanitizeCrumbs;
    SanitizeNothing(raw);
    out, dropped, redacted := [], [], [];
    for i := 0 to |raw|
      invariant out + Sanitized(raw[i..]) == Sanitized(raw)
      invariant dropped + DroppedKeys(raw[i..]) == DroppedKeys(raw)
      invariant redacted + SanitizeCrumbs(raw[i..]) == SanitizeCrumbs(raw)
    {
      var k, v := raw[i].key, raw[i].value;
      SanitizeStep(raw, i);
      ghost var rest := SanitizeCrumbs(raw[i + 1..]);
      if Allowed(k) {
        var value, crumbs := RedactCredentials(v, [Field(k)], redacted);
        assert redacted + (Found(v, [Field(k)]) + rest) == crumbs + rest;
        out, redacted := out + [Entry(k, value)], crumbs;
      } else {
        dropped := dropped + [k];
      }
    }
  }

  lemma SanitizeNothing(raw: seq<Entry>)
    ensures raw[0..] == raw
    ensures Sanitized(raw[|raw|..]) == [] && DroppedKeys(raw[|raw|..]) == [] && SanitizeCrumbs(raw[|raw|..]) == []
  {
  }

  lemma SanitizeStep(raw: seq<Entry>, i: nat)
    requires i < |raw|
    ensures var e, rest := raw[i], raw[i + 1..];
            && Sanitized(raw[i..]) == (if Allowed(e.key) then [Entry(e.key, Redact(e.value))] else []) + Sanitized(rest)
            && DroppedKeys(raw[i..]) == (if Allowed(e.key) then [] else [e.key]) + DroppedKeys(rest)
            && SanitizeCrumbs(raw[i..])
               == (if Allowed(e.key) then Found(e.value, [Field(e.key)]) else []) + SanitizeCrumbs(rest)
  {
    hide Allowed, Found, Redact;
    assert raw[i..][1..] == raw[i + 1..];
  }

  /** `d[key] = value`. */
  function PutKey(entries: seq<Entry>, key: Key, value: Value): seq<Entry> {
    if entries == [] then [Entry(key, value)]
    else if entries[0].key == key then [Entry(key, value)] + entries[1..]
    else [entries[0]] + PutKey(entries[1..], key, value)
  }

  /** The restored configuration: sanitized, with the live cloud block, where there is one, put back. */
  function Restored(raw: seq<Entry>, liveCloud: Option<Value>): seq<Entry> {
    var live := Present(liveCloud);
    if live.Some? then PutKey(Sanitized(raw), CLOUD, live.value) else Sanitized(raw)
  }

  // ---------- No allowed top-level key looks secret ----------

  /** Two neighbouring letters that occur in no allowed key; each of the secret parts contains one of them. */
  predicate TellTale(a: char, b: char) {
    || (a == 's' && b == 's') || (a == 'c' && b == 'r') || (a == 'o' && b == 'k') || (a == 'b' && b == 'e')
    || (a == 'p' && b == 'i') || (a == 'i' && b == 'v') || (a == 'h' && b == 'm')
  }

  /** All in lower case and no tell-tale pair from index `i` on. */
  predicate Plain(s: string, i: nat)
    requires i <= |s|
    decreases |s| - i
  {
    i == |s| || (LowerChar(s[i]) == s[i] && (i + 1 < |s| ==> !TellTale(s[i], s[i + 1])) && Plain(s, i + 1))
  }

  lemma PlainKeys1()
    ensures Plain("db_path", 0) && Plain("transports", 0)
  {
    assert Plain("transports", 6);
  }

  lemma PlainKeys2()
    ensures Plain("devices", 0) && Plain("exporters", 0)
  {
  }

  lemma PlainKeys3()
    ensures Plain("notification_transports", 0)
  {
    assert Plain("notification_transports", 18);
    assert Plain("notification_transports", 12);
    assert Plain("notification_transports", 6);
  }

  lemma PlainKeys4()
    ensures Plain("alerts", 0) && Plain("alerts_seeded", 0)
  {
    assert Plain("alerts_seeded", 12);
    assert Plain("alerts_seeded", 6);
  }

  lemma PlainKeys5()
    ensures Plain("quiet_hours", 0) && Plain("forecast", 0)
  {
    assert Plain("quiet_hours", 6);
  }

  lemma PlainKeys6()
    ensures Plain("weather", 0) && Plain("cloud", 0) && Plain("gps", 0)
  {
  }

  lemma PlainKeys7()
    ensures Plain("location", 0) && Plain("bank", 0)
  {
  }

  lemma PlainKeys8()
    ensures Plain("backup", 0) && Plain("discovery", 0)
  {
  }

  lemma PlainKeys9()
    ensures Plain("local_telemetry", 0)
  {
    assert Plain("local_telemetry", 12);
    assert Plain("local_telemetry", 6);
  }

  lemma PlainKeys10()
    ensures Plain("history", 0) && Plain("solar_pause", 0)
  {
    assert Plain("solar_pause", 6);
  }

  lemma PlainKeys11()
    ensures Plain("smart_plugs", 0) && Plain("mqtt_in", 0)
  {
    assert Plain("smart_plugs", 6);
  }

  lemma PlainKeys12()
    ensures Plain("hotspot", 0) && Plain("update", 0)
  {
  }

  lemma PlainKeys13()
    ensures Plain("kiosk", 0) && Plain("web", 0)
  {
  }

  lemma {:induction false} PlainEverywhere(s: string, i: nat)
    requires i <= |s| && Plain(s, i)
    ensures forall k :: i <= k < |s| ==> LowerChar(s[k]) == s[k]
    ensures forall k :: i <= k < |s| - 1 ==> !TellTale(s[k], s[k + 1])
    decreases |s| - i
  {
    if i < |s| {
      PlainEverywhere(s, i + 1);
    }
  }

  lemma PartsTell(part: string) returns (j: nat)
    requires part in SECRET_PARTS
    ensures j + 1 < |part| && TellTale(part[j], part[j + 1])
  {
    if part == "password" {
      return 2;
    } else if part == "passwd" {
      return 2;
    } else if part == "secret" {
      return 2;
    } else if part == "token" {
      return 1;
    } else if part == "bearer" {
      return 0;
    } else if part == "api_key" {
      return 1;
    } else if part == "private_key" {
      return 2;
    } else if part == "hmac" {
      return 0;
    } else {
      return 0;
    }
  }

  lemma PlainIsNotSecret(s: string)
    requires Plain(s, 0)
    ensures !LooksSecret(Text(s))
  {
    PlainEverywhere(s, 0);
    assert Lower(s) == s;
    forall part | part in SECRET_PARTS ensures !Contains(s, part) {
      var j := PartsTell(part);
      forall i: nat | i <= |s| ensures !ContainsAt(s, part, i) {
        if i + |part| <= |s| {
          assert !TellTale(s[i + j], s[i + j + 1]);
        }
      }
    }
  }

  lemma AllowedIsNotSecret(key: Key)
    requires Allowed(key)
    ensures !LooksSecret(key)
  {
    hide Plain, LooksSecret;
    PlainKeys1();
    PlainKeys2();
    PlainKeys3();
    PlainKeys4();
    PlainKeys5();
    PlainKeys6();
    PlainKeys7();
    PlainKeys8();
    PlainKeys9();
    PlainKeys10();
    PlainKeys11();
    PlainKeys12();
    PlainKeys13();
    PlainIsNotSecret(key.name);
  }

  // ---------- The round trip ----------

  lemma {:induction false} GetWithout(entries: seq<Entry>, gone: Key, key: Key)
    ensures Get(WithoutKey(entries, gone), key) == if key == gone then None else Get(entries, key)
    decreases |entries|
  {
    if entries != [] {
      GetWithout(entries[1..], gone, key);
      var rest := WithoutKey(entries[1..], gone);
      assert ([entries[0]] + rest)[1..] == rest;
      assert [] + rest == rest;
    }
  }

  lemma {:induction false} GetConcat(a: seq<Entry>, b: seq<Entry>, key: Key)
    ensures Get(a + b, key) == if Get(a, key).Some? then Get(a, key) else Get(b, key)
    decreases |a|
  {
    if a == [] {
      assert a + b == b;
    } else {
      GetConcat(a[1..], b, key);
      assert (a + b)[1..] == a[1..] + b;
    }
  }

  lemma {:induction false} GetSanitized(raw: seq<Entry>, key: Key)
    ensures Get(Sanitized(raw), key)
         == if Allowed(key) && Get(raw, key).Some? then Some(Redact(Get(raw, key).value)) else None
    decreases |raw|
  {
    hide Allowed, Redact;
    if raw != [] {
      GetSanitized(raw[1..], key);
      var rest := Sanitized(raw[1..]);
      var first := Entry(raw[0].key, Redact(raw[0].value));
      assert ([first] + rest)[1..] == rest;
      assert [] + rest == rest;
    }
  }

  lemma {:induction false} GetPut(entries: seq<Entry>, key: Key, value: Value, other: Key)
    ensures Get(PutKey(entries, key, value), other) == if other == key then Some(value) else Get(entries, other)
    decreases |entries|
  {
    if entries != [] {
      GetPut(entries[1..], key, value, other);
      assert PutKey(entries, key, value)[1..]
          == if entries[0].key == key then entries[1..] else PutKey(entries[1..], key, value);
    }
  }

  /** A restore keeps exactly these blocks. */
  lemma KeptExactly(raw: seq<Entry>, name: string)
    ensures Get(Sanitized(raw), Text(name)).Some? <==>
      && Get(raw, Text(name)).Some?
      && name in {"db_path", "transports", "devices", "exporters", "notification_transports", "alerts", "alerts_seeded",
                  "quiet_hours", "forecast", "weather", "cloud", "gps", "location", "bank", "backup", "discovery",
                  "local_telemetry", "history", "solar_pause", "smart_plugs", "mqtt_in", "hotspot", "update",
                  "kiosk", "web"}
    ensures forall n: int :: Get(Sanitized(raw), NonText(n)) == None
  {
    hide Sanitized, Get, Redact;
    GetSanitized(raw, Text(name));
    forall n: int ensures Get(Sanitized(raw), NonText(n)) == None {
      GetSanitized(raw, NonText(n));
    }
  }

  /** What an export holds under each key. */
  lemma GetExported(config: seq<Entry>, key: Key)
    ensures Get(Export(config), key)
         == if key == CLOUD then Present(Get(config, CLOUD))
            else match Get(config, key)
              case None => None
              case Some(x) => Some(if LooksSecret(key) then Blank(x) else Redact(x))
  {
    hide LooksSecret, RedactEntries, WithoutKey, Redact, Blank;
    var body := RedactEntries(WithoutKey(config, CLOUD));
    var cloud := Present(Get(config, CLOUD));
    GetWithout(config, CLOUD, key);
    GetRedacted(WithoutKey(config, CLOUD), key);
    GetConcat(body, if cloud.Some? then [Entry(CLOUD, cloud.value)] else [], key);
  }

  /** Restoring an export changes nothing further outside the cloud block, except that keys that are not allowed
      are dropped; a live cloud block is kept as it is, and without one the archived block comes back redacted. */
  lemma RestoreOfExport(config: seq<Entry>, liveCloud: Option<Value>, key: Key)
    ensures Get(Restored(Export(config), liveCloud), key)
         == if key == CLOUD && Present(liveCloud).Some? then liveCloud
            else if key == CLOUD then
              (match Present(Get(config, CLOUD)) case None => None case Some(c) => Some(Redact(c)))
            else if Allowed(key) then Get(Export(config), key)
            else None
  {
    hide LooksSecret, Redact, Export, Sanitized, PutKey, Blank;
    var exported := Export(config);
    GetExported(config, key);
    GetSanitized(exported, key);
    if Present(liveCloud).Some? {
      GetPut(Sanitized(exported), CLOUD, Present(liveCloud).value, key);
    }
    CloudIsAllowed();
    if Allowed(key) {
      AllowedIsNotSecret(key);
      if Get(config, key).Some? {
        RedactTwice(Get(config, key).value, []);
      }
    }
  }

  lemma CloudIsAllowed()
    ensures Allowed(CLOUD)
  {
    assert ALLOWED[10] == "cloud";
  }

  // ---------- A restore reports nothing outside the cloud block ----------

  predicate AllInside(crumbs: seq<Path>, key: Key) {
    forall c <- crumbs :: |c| >= 1 && c[0] == Field(key)
  }

  lemma {:induction false} SanitizeCrumbsConcat(a: seq<Entry>, b: seq<Entry>)
    ensures SanitizeCrumbs(a + b) == SanitizeCrumbs(a) + SanitizeCrumbs(b)
    decreases |a|
  {
    hide Allowed, Found;
    if a == [] {
      assert a + b == b;
    } else {
      SanitizeCrumbsConcat(a[1..], b);
      assert (a + b)[1..] == a[1..] + b;
      var first := if Allowed(a[0].key) then Found(a[0].value, [Field(a[0].key)]) else [];
      assert first + (SanitizeCrumbs(a[1..]) + SanitizeCrumbs(b))
          == (first + SanitizeCrumbs(a[1..])) + SanitizeCrumbs(b);
    }
  }

  lemma {:induction false} RedactedHasNoCrumbs(entries: seq<Entry>)
    ensures SanitizeCrumbs(RedactEntries(entries)) == []
    decreases |entries|
  {
    hide LooksSecret, Allowed, Found, Redact;
    if entries != [] {
      RedactedHasNoCrumbs(entries[1..]);
      assert RedactEntries(entries)[1..] == RedactEntries(entries[1..]);
      if Allowed(entries[0].key) {
        AllowedIsNotSecret(entries[0].key);
        RedactTwice(entries[0].value, [Field(entries[0].key)]);
      }
    }
  }

  lemma RestoreReportsOnlyCloud(config: seq<Entry>)
    requires forall i :: 0 <= i < |config| ==> WellFormedEntry(config[i])
    ensures AllInside(SanitizeCrumbs(Export(config)), CLOUD)
  {
    hide RedactEntries, Found, Allowed, SanitizeCrumbs;
    var cloud := Present(Get(config, CLOUD));
    var tail := if cloud.Some? then [Entry(CLOUD, cloud.value)] else [];
    SanitizeCrumbsConcat(RedactEntries(WithoutKey(config, CLOUD)), tail);
    RedactedHasNoCrumbs(WithoutKey(config, CLOUD));
    CrumbsOfOne(tail);
    if cloud.Some? {
      GetIsWellFormed(config, CLOUD);
      forall c | c in Found(cloud.value, [Field(CLOUD)]) ensures |c| >= 1 && c[0] == Field(CLOUD) {
        FoundExactly(cloud.value, [Field(CLOUD)], c);
        assert c[..1] == [Field(CLOUD)];
      }
    }
  }

  lemma CrumbsOfOne(tail: seq<Entry>)
    requires |tail| <= 1
    ensures tail == [] ==> SanitizeCrumbs(tail) == []
    ensures tail != [] ==> forall c <- SanitizeCrumbs(tail) :: c in Found(tail[0].value, [Field(tail[0].key)])
  {
  }

  lemma {:induction false} GetIsWellFormed(entries: seq<Entry>, key: Key)
    requires forall i :: 0 <= i < |entries| ==> WellFormedEntry(entries[i])
    ensures Get(entries, key).Some? ==> WellFormed(Get(entries, key).value)
    decreases |entries|
  {
    if entries != [] {
      GetIsWellFormed(entries[1..], key);
    }
  }

  // ---------- What a restore reports ----------

  /** The dropped keys are exactly those outside the list, in order. */
  lemma {:induction false} DroppedExactly(raw: seq<Entry>, key: Key)
    ensures key in DroppedKeys(raw) <==> !Allowed(key) && exists i :: 0 <= i < |raw| && raw[i].key == key
    decreases |raw|
  {
    hide Allowed;
    if raw != [] {
      DroppedExactly(raw[1..], key);
      assert raw == [raw[0]] + raw[1..];
      if i :| 0 <= i < |raw| && raw[i].key == key {
        assert i > 0 ==> raw[1..][i - 1].key == key;
      }
      if i :| 0 <= i < |raw[1..]| && raw[1..][i].key == key {
        assert raw[i + 1].key == key;
      }
      assert raw[0].key == raw[0].key;
    }
  }

  /** The breadcrumbs are exactly the non-empty strings at their path's first secret-looking key, under kept keys. */
  lemma {:induction false} CrumbsExactly(raw: seq<Entry>, path: Path)
    requires forall i :: 0 <= i < |raw| ==> WellFormedEntry(raw[i])
    ensures path in SanitizeCrumbs(raw) <==>
      exists i :: 0 <= i < |raw| && Allowed(raw[i].key) && path != [] && path[0] == Field(raw[i].key)
                  && Hit(raw[i].value, path[1..])
    decreases |raw|
  {
    hide Allowed, Hit, Found;
    if raw != [] {
      var e, rest := raw[0], raw[1..];
      CrumbsExactly(rest, path);
      FoundExactly(e.value, [Field(e.key)], path);
      assert path != [] ==> (path[..1] == [Field(e.key)] <==> path[0] == Field(e.key));
      if i :| 0 <= i < |rest| && Allowed(rest[i].key) && path != [] && path[0] == Field(rest[i].key)
              && Hit(rest[i].value, path[1..]) {
        assert raw[i + 1] == rest[i];
      }
      if i :| 0 <= i < |raw| && Allowed(raw[i].key) && path != [] && path[0] == Field(raw[i].key)
              && Hit(raw[i].value, path[1..]) {
        assert i > 0 ==> raw[i] == rest[i - 1];
      }
    }
  }
}
