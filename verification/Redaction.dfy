/** Credential redaction of `solar_monitor/api/backup.py`, applied to the configuration on export and again on
    restore. */
module Redaction {
  import opened Wrappers

  /** A parsed YAML value; mappings keep their order. */
  datatype Value =
    | Null
    | Bool(b: bool)
    | Number(n: real)
    | Str(s: string)
    | List(items: seq<Value>)
    | Map(entries: seq<Entry>)

  datatype Key = Text(name: string) | NonText(n: int)

  datatype Entry = Entry(key: Key, value: Value)

  // ---------- Which keys look secret ----------

  /** `str.lower` as far as it matters here: of all other characters only the Kelvin sign and the dotted capital I
      have ASCII in their lower case, and the latter brings a combining dot that no secret part contains. */
  function LowerChar(c: char): char {
    if 'A' <= c <= 'Z' then c - 'A' + 'a' else if c == '\U{212A}' then 'k' else c
  }

  function Lower(s: string): string {
    seq(|s|, i requires 0 <= i < |s| => LowerChar(s[i]))
  }

  predicate ContainsAt(s: string, part: string, i: nat) {
    i + |part| <= |s| && forall j :: 0 <= j < |part| ==> s[i + j] == part[j]
  }

  predicate Contains(s: string, part: string) {
    exists i: nat | i <= |s| :: ContainsAt(s, part, i)
  }

  const SECRET_PARTS: seq<string> :=
    ["password", "passwd", "secret", "token", "bearer", "api_key", "private_key", "hmac", "credential"]

  predicate LooksSecret(key: Key) {
    key.Text? && exists part <- SECRET_PARTS :: Contains(Lower(key.name), part)
  }

  // ---------- Which keys that is ----------

  /** Both cases of every ASCII letter count as the small one, other ASCII characters as themselves. */
  lemma LowersLetters(s: string, i: nat)
    requires i < |s|
    ensures |Lower(s)| == |s|
    ensures 'A' <= s[i] <= 'Z' ==> Lower(s)[i] as int == s[i] as int + 32
    ensures s[i] as int < 128 && !('A' <= s[i] <= 'Z') ==> Lower(s)[i] == s[i]
  {
  }

  /** A key looks secret exactly when its name in lower case has one of the nine parts somewhere in it. */
  lemma LooksSecretExactly(name: string)
    ensures LooksSecret(Text(name)) <==>
      exists pre: string, part: string, post: string ::
        Lower(name) == pre + part + post
        && (part == "password" || part == "passwd" || part == "secret" || part == "token" || part == "bearer"
            || part == "api_key" || part == "private_key" || part == "hmac" || part == "credential")
    ensures forall n: int :: !LooksSecret(NonText(n))
  {
    hide Lower, ContainsAt;
    var low := Lower(name);
    if LooksSecret(Text(name)) {
      var part :| part in SECRET_PARTS && Contains(low, part);
      var i: nat :| i <= |low| && ContainsAt(low, part, i);
      Around(low, part, i);
    }
    forall pre: string, part: string, post: string | low == pre + part + post && part in SECRET_PARTS
      ensures LooksSecret(Text(name))
    {
      Inside(low, pre, part, post);
    }
  }

  lemma Around(s: string, part: string, i: nat)
    requires ContainsAt(s, part, i)
    ensures i + |part| <= |s| && s == s[..i] + part + s[i + |part|..]
  {
    assert s[i..i + |part|] == part;
  }

  lemma Inside(s: string, pre: string, part: string, post: string)
    requires s == pre + part + post
    ensures ContainsAt(s, part, |pre|) && Contains(s, part)
  {
  }

  // ---------- The transformation ----------

  /** Only non-empty strings are blanked. */
  function Blank(v: Value): Value {
    if v.Str? && v.s != "" then Str("") else v
  }

  function Redact(v: Value): Value
    decreases v
  {
    match v
    case Map(entries) => Map(RedactEntries(entries))
    case List(items) => List(RedactItems(items))
    case _ => v
  }

  function RedactEntries(entries: seq<Entry>): (r: seq<Entry>)
    ensures |r| == |entries|
    decreases entries
  {
    if entries == [] then [] else [RedactEntry(entries[0])] + RedactEntries(entries[1..])
  }

  function RedactEntry(e: Entry): Entry
    decreases e
  {
    Entry(e.key, if LooksSecret(e.key) then Blank(e.value) else Redact(e.value))
  }

  function RedactItems(items: seq<Value>): (r: seq<Value>)
    ensures |r| == |items|
    decreases items
  {
    if items == [] then [] else [Redact(items[0])] + RedactItems(items[1..])
  }

  // ---------- Breadcrumbs ----------

  datatype Step = Field(key: Key) | Index(i: nat)

  type Path = seq<Step>

  /** The paths blanked inside `v`, which itself sits at `at`, in the order they are met. */
  function Found(v: Value, at: Path): seq<Path>
    decreases v
  {
    match v
    case Map(entries) => FoundInEntries(entries, at)
    case List(items) => FoundInItems(items, at, 0)
    case _ => []
  }

  function FoundInEntry(e: Entry, at: Path): seq<Path>
    decreases e
  {
    if !LooksSecret(e.key) then Found(e.value, at + [Field(e.key)])
    else if e.value.Str? && e.value.s != "" then [at + [Field(e.key)]]
    else []
  }

  function FoundInEntries(entries: seq<Entry>, at: Path): seq<Path>
    decreases entries
  {
    if entries == [] then [] else FoundInEntry(entries[0], at) + FoundInEntries(entries[1..], at)
  }

  function FoundInItems(items: seq<Value>, at: Path, from: nat): seq<Path>
    decreases items
  {
    if items == [] then [] else Found(items[0], at + [Index(from)]) + FoundInItems(items[1..], at, from + 1)
  }

  /** The recursion as the program runs it, with one list of breadcrumbs growing along the way. */
  method RedactCredentials(value: Value, path: Path, redacted: seq<Path>) returns (out: Value, crumbs: seq<Path>)
    ensures out == Redact(value)
    ensures crumbs == redacted + Found(value, path)
    decreases value, 1
  {
    match value {
      case Map(entries) =>
        var outEntries;
        outEntries, crumbs := RedactMapping(entries, path, redacted);
        out := Map(outEntries);
      case List(items) =>
        var outItems;
        outItems, crumbs := RedactList(items, path, redacted);
        out := List(outItems);
      case _ =>
        out, crumbs := value, redacted;
    }
  }

  method RedactMapping(entries: seq<Entry>, path: Path, redacted: seq<Path>)
    returns (out: seq<Entry>, crumbs: seq<Path>)
    ensures out == RedactEntries(entries)
    ensures crumbs == redacted + FoundInEntries(entries, path)
    decreases entries, 0
  {
    hide LooksSecret, RedactEntries, FoundInEntries, Redact, Found;
    out, crumbs := [], redacted;
    NoEntries(entries, path);
    for i := 0 to |entries|
      invariant out + RedactEntries(entries[i..]) == RedactEntries(entries)
      invariant crumbs + FoundInEntries(entries[i..], path) == redacted + FoundInEntries(entries, path)
    {
      EntriesStep(entries, i, path);
      var k, v := entries[i].key, entries[i].value;
      ghost var found, entry := FoundInEntry(entries[i], path), RedactEntry(entries[i]);
      ghost var crumbs0, out0 := crumbs, out;
      if LooksSecret(k) {
        if v.Str? && v.s != "" {
          crumbs := crumbs + [path + [Field(k)]];
          out := out + [Entry(k, Str(""))];
        } else {
          out := out + [Entry(k, v)];
        }
      } else {
        assert entries[i] < Map(entries);
        var inner;
        inner, crumbs := RedactCredentials(v, path + [Field(k)], crumbs);
        out := out + [Entry(k, inner)];
      }
      assert crumbs == crumbs0 + found && out == out0 + [entry];
      assert crumbs0 + (found + FoundInEntries(entries[i + 1..], path))
          == crumbs + FoundInEntries(entries[i + 1..], path);
    }
  }

  method RedactList(items: seq<Value>, path: Path, redacted: seq<Path>) returns (out: seq<Value>, crumbs: seq<Path>)
    ensures out == RedactItems(items)
    ensures crumbs == redacted + FoundInItems(items, path, 0)
    decreases items, 0
  {
    hide RedactItems, FoundInItems, Redact, Found;
    out, crumbs := [], redacted;
    NoItems(items, path);
    for i := 0 to |items|
      invariant out + RedactItems(items[i..]) == RedactItems(items)
      invariant crumbs + FoundInItems(items[i..], path, i) == redacted + FoundInItems(items, path, 0)
    {
      ItemsStep(items, i, path);
      ghost var crumbs0 := crumbs;
      var inner;
      inner, crumbs := RedactCredentials(items[i], path + [Index(i)], crumbs);
      out := out + [inner];
      assert crumbs0 + (Found(items[i], path + [Index(i)]) + FoundInItems(items[i + 1..], path, i + 1))
          == crumbs + FoundInItems(items[i + 1..], path, i + 1);
    }
  }

  lemma NoEntries(entries: seq<Entry>, path: Path)
    ensures entries[0..] == entries
    ensures RedactEntries(entries[|entries|..]) == [] && FoundInEntries(entries[|entries|..], path) == []
  {
  }

  lemma NoItems(items: seq<Value>, path: Path)
    ensures items[0..] == items
    ensures RedactItems(items[|items|..]) == [] && FoundInItems(items[|items|..], path, |items|) == []
  {
  }

  lemma EntriesStep(entries: seq<Entry>, i: nat, path: Path)
    requires i < |entries|
    ensures RedactEntries(entries[i..])
         == [RedactEntry(entries[i])] + RedactEntries(entries[i + 1..])
    ensures FoundInEntries(entries[i..], path)
         == FoundInEntry(entries[i], path) + FoundInEntries(entries[i + 1..], path)
  {
    assert entries[i..][1..] == entries[i + 1..];
  }

  lemma ItemsStep(items: seq<Value>, i: nat, path: Path)
    requires i < |items|
    ensures RedactItems(items[i..]) == [Redact(items[i])] + RedactItems(items[i + 1..])
    ensures FoundInItems(items[i..], path, i)
         == Found(items[i], path + [Index(i)]) + FoundInItems(items[i + 1..], path, i + 1)
  {
    assert items[i..][1..] == items[i + 1..];
  }

  // ---------- Idempotence and shape ----------

  lemma {:induction false} RedactTwice(v: Value, at: Path)
    ensures Redact(Redact(v)) == Redact(v)
    ensures Found(Redact(v), at) == []
    decreases v
  {
    match v {
      case Map(entries) => RedactEntriesTwice(entries, at);
      case List(items) => RedactItemsTwice(items, at, 0);
      case _ =>
    }
  }

  lemma {:induction false} RedactEntriesTwice(entries: seq<Entry>, at: Path)
    ensures RedactEntries(RedactEntries(entries)) == RedactEntries(entries)
    ensures FoundInEntries(RedactEntries(entries), at) == []
    decreases entries
  {
    if entries != [] {
      RedactEntryTwice(entries[0], at);
      RedactEntriesTwice(entries[1..], at);
      assert RedactEntries(entries)[1..] == RedactEntries(entries[1..]);
    }
  }

  lemma {:induction false} RedactEntryTwice(e: Entry, at: Path)
    ensures RedactEntry(RedactEntry(e)) == RedactEntry(e)
    ensures FoundInEntry(RedactEntry(e), at) == []
    decreases e
  {
    hide LooksSecret;
    RedactTwice(e.value, at + [Field(e.key)]);
  }

  lemma {:induction false} RedactItemsTwice(items: seq<Value>, at: Path, from: nat)
    ensures RedactItems(RedactItems(items)) == RedactItems(items)
    ensures FoundInItems(RedactItems(items), at, from) == []
    decreases items
  {
    if items != [] {
      RedactTwice(items[0], at + [Index(from)]);
      RedactItemsTwice(items[1..], at, from + 1);
      assert RedactItems(items)[1..] == RedactItems(items[1..]);
    }
  }

  /** A value with every string emptied: its shape. */
  function Shape(v: Value): Value
    decreases v
  {
    match v
    case Map(entries) => Map(EntryShapes(entries))
    case List(items) => List(ItemShapes(items))
    case Str(_) => Str("")
    case _ => v
  }

  function EntryShapes(entries: seq<Entry>): seq<Entry>
    decreases entries
  {
    if entries == [] then [] else [EntryShape(entries[0])] + EntryShapes(entries[1..])
  }

  function EntryShape(e: Entry): Entry
    decreases e
  {
    Entry(e.key, Shape(e.value))
  }

  function ItemShapes(items: seq<Value>): seq<Value>
    decreases items
  {
    if items == [] then [] else [Shape(items[0])] + ItemShapes(items[1..])
  }

  lemma {:induction false} RedactKeepsShape(v: Value)
    ensures Shape(Redact(v)) == Shape(v)
    decreases v
  {
    match v {
      case Map(entries) => RedactKeepsEntryShapes(entries);
      case List(items) => RedactKeepsItemShapes(items);
      case _ =>
    }
  }

  lemma {:induction false} RedactKeepsEntryShapes(entries: seq<Entry>)
    ensures EntryShapes(RedactEntries(entries)) == EntryShapes(entries)
    decreases entries
  {
    if entries != [] {
      RedactKeepsEntryShape(entries[0]);
      RedactKeepsEntryShapes(entries[1..]);
      assert RedactEntries(entries)[1..] == RedactEntries(entries[1..]);
    }
  }

  lemma {:induction false} RedactKeepsEntryShape(e: Entry)
    ensures EntryShape(RedactEntry(e)) == EntryShape(e)
    decreases e
  {
    hide LooksSecret;
    RedactKeepsShape(e.value);
  }

  lemma {:induction false} RedactKeepsItemShapes(items: seq<Value>)
    ensures ItemShapes(RedactItems(items)) == ItemShapes(items)
    decreases items
  {
    if items != [] {
      RedactKeepsShape(items[0]);
      RedactKeepsItemShapes(items[1..]);
      assert RedactItems(items)[1..] == RedactItems(items[1..]);
    }
  }

  // ---------- What is blanked, path by path ----------

  function Get(entries: seq<Entry>, key: Key): Option<Value> {
    if entries == [] then None
    else if entries[0].key == key then Some(entries[0].value)
    else Get(entries[1..], key)
  }

  function Lookup(v: Value, path: Path): Option<Value>
    decreases |path|
  {
    if path == [] then Some(v)
    else match path[0]
      case Field(key) =>
        if !v.Map? then None
        else
          var inner := Get(v.entries, key);
          if inner.None? then None else Lookup(inner.value, path[1..])
      case Index(i) => if v.List? && i < |v.items| then Lookup(v.items[i], path[1..]) else None
  }

  predicate SecretStep(s: Step) {
    s.Field? && LooksSecret(s.key)
  }

  /** Where the first secret-looking key of a path stands: `|path|` when there is none. */
  function FirstSecret(path: Path): (k: nat)
    ensures k <= |path|
    decreases |path|
  {
    if path == [] || SecretStep(path[0]) then 0 else 1 + FirstSecret(path[1..])
  }

  /** The path ends at its first secret-looking key. */
  predicate EndsSecret(path: Path) {
    path != [] && FirstSecret(path) == |path| - 1
  }

  lemma {:induction false} GetRedacted(entries: seq<Entry>, key: Key)
    ensures Get(RedactEntries(entries), key)
         == match Get(entries, key)
            case None => None
            case Some(x) => Some(if LooksSecret(key) then Blank(x) else Redact(x))
    decreases |entries|
  {
    hide LooksSecret;
    if entries != [] {
      GetRedacted(entries[1..], key);
      assert RedactEntries(entries)[1..] == RedactEntries(entries[1..]);
    }
  }

  lemma {:induction false} ItemRedacted(items: seq<Value>, i: nat)
    requires i < |items|
    ensures RedactItems(items)[i] == Redact(items[i])
    decreases |items|
  {
    if i > 0 {
      ItemRedacted(items[1..], i - 1);
    }
  }

  lemma BlankKeepsInside(v: Value, path: Path)
    requires path != []
    ensures Lookup(Blank(v), path) == Lookup(v, path)
  {
  }

  /** The complete effect: a value at a path without secret-looking keys is redacted in turn, a value at the first
      secret-looking key is blanked, and anything below that is left alone. */
  lemma {:induction false} RedactedAt(v: Value, path: Path)
    ensures Lookup(Redact(v), path)
         == match Lookup(v, path)
            case None => None
            case Some(x) =>
              Some(if FirstSecret(path) == |path| then Redact(x) else if EndsSecret(path) then Blank(x) else x)
    decreases |path|
  {
    hide LooksSecret, Blank;
    if path != [] {
      match path[0] {
        case Field(key) =>
          if v.Map? {
            GetRedacted(v.entries, key);
            var inner := Get(v.entries, key);
            if inner.Some? {
              if LooksSecret(key) {
                if path[1..] != [] {
                  BlankKeepsInside(inner.value, path[1..]);
                }
              } else {
                RedactedAt(inner.value, path[1..]);
              }
            }
          }
        case Index(i) =>
          if v.List? && i < |v.items| {
            ItemRedacted(v.items, i);
            RedactedAt(v.items[i], path[1..]);
          }
      }
    }
  }

  /** So nothing is left in clear: a string at its path's first secret-looking key is empty afterwards, everything
      below such a key and every other string, number, flag or null stays what it was. */
  lemma SecretsAreBlanked(v: Value, path: Path)
    requires Lookup(v, path).Some?
    ensures var x := Lookup(v, path).value;
            && (EndsSecret(path) && x.Str? ==> Lookup(Redact(v), path) == Some(Str("")))
            && (EndsSecret(path) && !x.Str? ==> Lookup(Redact(v), path) == Some(x))
            && (FirstSecret(path) < |path| - 1 ==> Lookup(Redact(v), path) == Some(x))
            && (FirstSecret(path) == |path| && !x.Map? && !x.List? ==> Lookup(Redact(v), path) == Some(x))
  {
    hide LooksSecret;
    RedactedAt(v, path);
  }

  // ---------- The breadcrumbs are exactly the changed paths ----------

  predicate KeysDiffer(entries: seq<Entry>) {
    forall i, j :: 0 <= i < j < |entries| ==> entries[i].key != entries[j].key
  }

  /** Mappings have distinct keys, at every level. */
  predicate WellFormed(v: Value)
    decreases v
  {
    match v
    case Map(entries) => KeysDiffer(entries) && forall i :: 0 <= i < |entries| ==> WellFormedEntry(entries[i])
    case List(items) => forall i :: 0 <= i < |items| ==> WellFormed(items[i])
    case _ => true
  }

  predicate WellFormedEntry(e: Entry)
    decreases e
  {
    WellFormed(e.value)
  }

  predicate NonEmptyString(v: Option<Value>) {
    v.Some? && v.value.Str? && v.value.s != ""
  }

  /** A non-empty string at its path's first secret-looking key. */
  predicate Hit(v: Value, path: Path) {
    EndsSecret(path) && NonEmptyString(Lookup(v, path))
  }

  predicate HitInEntries(entries: seq<Entry>, path: Path) {
    && path != [] && path[0].Field?
    && var inner := Get(entries, path[0].key);
       && inner.Some?
       && if LooksSecret(path[0].key) then |path| == 1 && NonEmptyString(inner) else Hit(inner.value, path[1..])
  }

  predicate HitInItems(items: seq<Value>, path: Path, from: nat) {
    path != [] && path[0].Index? && from <= path[0].i < from + |items| && Hit(items[path[0].i - from], path[1..])
  }

  lemma HitCases(v: Value, path: Path)
    ensures Hit(v, path) <==> (v.Map? && HitInEntries(v.entries, path)) || (v.List? && HitInItems(v.items, path, 0))
  {
    hide LooksSecret;
    if path != [] {
      FirstSecretAtStart(path);
      assert EndsSecret(path) <==> if SecretStep(path[0]) then |path| == 1 else EndsSecret(path[1..]);
      assert |path| == 1 ==> path[1..] == [];
      LookupStep(v, path);
    }
  }

  lemma LookupStep(v: Value, path: Path)
    requires path != []
    ensures Lookup(v, path) == match path[0]
      case Field(key) =>
        if v.Map? && Get(v.entries, key).Some? then Lookup(Get(v.entries, key).value, path[1..]) else None
      case Index(i) =>
        if v.List? && i < |v.items| then Lookup(v.items[i], path[1..]) else None
    ensures |path| == 1 ==> forall x: Value :: Lookup(x, path[1..]) == Some(x)
  {
  }

  lemma FirstSecretAtStart(path: Path)
    requires path != []
    ensures SecretStep(path[0]) ==> FirstSecret(path) == 0
    ensures !SecretStep(path[0]) ==> FirstSecret(path) == 1 + FirstSecret(path[1..])
  {
  }

  /** `path` continues `at`. */
  predicate Beyond(at: Path, path: Path) {
    |at| <= |path| && path[..|at|] == at
  }

  lemma Deeper(at: Path, step: Step, path: Path)
    ensures Beyond(at + [step], path) <==> Beyond(at, path) && |at| < |path| && path[|at|] == step
    ensures Beyond(at + [step], path) ==> path[|at + [step]|..] == path[|at|..][1..]
  {
    if Beyond(at, path) && |at| < |path| && path[|at|] == step {
      assert path[..|at| + 1] == path[..|at|] + [path[|at|]];
    }
    if Beyond(at + [step], path) {
      assert path[..|at|] == path[..|at| + 1][..|at|] == at;
      assert path[|at|] == path[..|at| + 1][|at|];
    }
  }

  lemma {:induction false} FoundExactly(v: Value, at: Path, path: Path)
    requires WellFormed(v)
    ensures path in Found(v, at) <==> Beyond(at, path) && Hit(v, path[|at|..])
    decreases v
  {
    hide LooksSecret, Hit, EndsSecret;
    if Beyond(at, path) {
      HitCases(v, path[|at|..]);
    }
    match v {
      case Map(entries) => FoundInEntriesExactly(entries, at, path);
      case List(items) => FoundInItemsExactly(items, at, 0, path);
      case _ =>
    }
  }

  lemma {:induction false} FoundInEntryExactly(e: Entry, at: Path, path: Path)
    requires WellFormedEntry(e)
    ensures path in FoundInEntry(e, at) <==> Beyond(at, path) && HitInEntries([e], path[|at|..])
    ensures path in FoundInEntry(e, at) ==> path[|at|] == Field(e.key)
    decreases e
  {
    hide LooksSecret, Hit;
    Deeper(at, Field(e.key), path);
    assert forall k: Key :: Get([e], k) == if k == e.key then Some(e.value) else None;
    if LooksSecret(e.key) {
      if |path| == |at| + 1 {
        assert path[..|at| + 1] == path;
        assert path[|at|..] == [path[|at|]];
      }
    } else {
      FoundExactly(e.value, at + [Field(e.key)], path);
    }
  }

  lemma {:induction false} FoundInEntriesExactly(entries: seq<Entry>, at: Path, path: Path)
    requires KeysDiffer(entries) && forall i :: 0 <= i < |entries| ==> WellFormedEntry(entries[i])
    ensures path in FoundInEntries(entries, at) <==> Beyond(at, path) && HitInEntries(entries, path[|at|..])
    decreases entries
  {
    hide LooksSecret, Hit, FoundInEntry, NonEmptyString;
    if entries != [] {
      var first, rest := entries[0], entries[1..];
      FoundInEntryExactly(first, at, path);
      FoundInEntriesExactly(rest, at, path);
      AbsentAfterFirst(entries);
    }
  }

  lemma {:induction false} GetIsMember(entries: seq<Entry>, key: Key)
    ensures Get(entries, key).Some? ==> exists i :: 0 <= i < |entries| && entries[i].key == key
    decreases |entries|
  {
    if entries != [] {
      GetIsMember(entries[1..], key);
      if Get(entries[1..], key).Some? {
        var i :| 0 <= i < |entries[1..]| && entries[1..][i].key == key;
        assert entries[i + 1].key == key;
      }
    }
  }

  lemma AbsentAfterFirst(entries: seq<Entry>)
    requires entries != [] && KeysDiffer(entries)
    ensures Get(entries[1..], entries[0].key) == None
  {
    GetIsMember(entries[1..], entries[0].key);
  }

  lemma {:induction false} FoundInItemsExactly(items: seq<Value>, at: Path, from: nat, path: Path)
    requires forall i :: 0 <= i < |items| ==> WellFormed(items[i])
    ensures path in FoundInItems(items, at, from) <==> Beyond(at, path) && HitInItems(items, path[|at|..], from)
    decreases items
  {
    hide Hit, Found;
    if items != [] {
      FoundExactly(items[0], at + [Index(from)], path);
      Deeper(at, Index(from), path);
      FoundInItemsExactly(items[1..], at, from + 1, path);
    }
  }

  /** The breadcrumbs list exactly the paths of the strings that redaction changes. */
  lemma BreadcrumbsAreTheChanges(v: Value, path: Path)
    requires WellFormed(v)
    ensures path in Found(v, []) <==>
      (Lookup(v, path).Some? && Lookup(v, path).value.Str? && Lookup(Redact(v), path) != Lookup(v, path))
  {
    FoundExactly(v, [], path);
    assert path[0..] == path && path[..0] == [];
    RedactedAt(v, path);
  }

  // ---------- No path is listed twice ----------

  predicate Once(paths: seq<Path>) {
    forall i, j :: 0 <= i < j < |paths| ==> paths[i] != paths[j]
  }

  lemma OnceTogether(a: seq<Path>, b: seq<Path>)
    requires Once(a) && Once(b) && forall path <- a :: path !in b
    ensures Once(a + b)
  {
    forall i, j | 0 <= i < j < |a + b| ensures (a + b)[i] != (a + b)[j] {
      if i < |a| <= j {
        assert a[i] in a && b[j - |a|] in b;
      }
    }
  }

  lemma {:induction false} BreadcrumbsAreListedOnce(v: Value, at: Path)
    requires WellFormed(v)
    ensures Once(Found(v, at))
    decreases v
  {
    match v {
      case Map(entries) => EntriesAreListedOnce(entries, at);
      case List(items) => ItemsAreListedOnce(items, at, 0);
      case _ =>
    }
  }

  lemma {:induction false} EntryIsListedOnce(e: Entry, at: Path)
    requires WellFormedEntry(e)
    ensures Once(FoundInEntry(e, at))
    decreases e
  {
    hide LooksSecret;
    if !LooksSecret(e.key) {
      BreadcrumbsAreListedOnce(e.value, at + [Field(e.key)]);
    }
  }

  lemma {:induction false} EntriesAreListedOnce(entries: seq<Entry>, at: Path)
    requires KeysDiffer(entries) && forall i :: 0 <= i < |entries| ==> WellFormedEntry(entries[i])
    ensures Once(FoundInEntries(entries, at))
    decreases entries
  {
    hide LooksSecret, FoundInEntry, Once, Hit, NonEmptyString;
    if entries == [] {
      NothingTwice();
    } else {
      var first, rest := FoundInEntry(entries[0], at), FoundInEntries(entries[1..], at);
      EntryIsListedOnce(entries[0], at);
      EntriesAreListedOnce(entries[1..], at);
      AbsentAfterFirst(entries);
      forall path | path in first ensures path !in rest {
        FoundInEntryExactly(entries[0], at, path);
        FoundInEntriesExactly(entries[1..], at, path);
      }
      OnceTogether(first, rest);
    }
  }

  lemma {:induction false} ItemsAreListedOnce(items: seq<Value>, at: Path, from: nat)
    requires forall i :: 0 <= i < |items| ==> WellFormed(items[i])
    ensures Once(FoundInItems(items, at, from))
    decreases items
  {
    hide Found, Once, Hit;
    if items == [] {
      NothingTwice();
    } else {
      var first, rest := Found(items[0], at + [Index(from)]), FoundInItems(items[1..], at, from + 1);
      BreadcrumbsAreListedOnce(items[0], at + [Index(from)]);
      ItemsAreListedOnce(items[1..], at, from + 1);
      forall path | path in first ensures path !in rest {
        FoundExactly(items[0], at + [Index(from)], path);
        Deeper(at, Index(from), path);
        FoundInItemsExactly(items[1..], at, from + 1, path);
      }
      OnceTogether(first, rest);
    }
  }

  lemma NothingTwice()
    ensures Once([])
  {
  }
}
