/** Version negotiation, and why comparing revision strings compares dates. */
module Versions {
  import opened Wrappers
  import opened Json
  import opened Service
  import opened Protocol

  /** The negotiated version is one the server supports, is the one asked for if it can be, and is stable. */
  lemma Negotiation(config: Config, requested: string)
    ensures var answer := NegotiateVersion(config, requested);
            && (config.protocolVersions != [] ==> answer in config.protocolVersions)
            && (config.protocolVersions == [] ==> answer == "2025-11-25")
            && (requested in config.protocolVersions ==> answer == requested)
            && (requested !in config.protocolVersions && config.protocolVersions != [] ==>
                  answer == config.protocolVersions[|config.protocolVersions| - 1])
            && NegotiateVersion(config, answer) == answer
  {}

  // ----- Revision strings -----

  datatype Date = Date(year: nat, month: nat, day: nat)

  /** Dates that `YYYY-MM-DD` can write. */
  predicate Writable(d: Date) {
    d.year < 10000 && 1 <= d.month <= 12 && 1 <= d.day <= 31
  }

  function Digit(n: nat): char
    requires n < 10
  {
    '0' + n as char
  }

  /** `n` in exactly `width` decimal digits. */
  function Pad(n: nat, width: nat): string
    decreases width
  {
    if width == 0 then "" else Pad(n / 10, width - 1) + [Digit(n % 10)]
  }

  function DateText(d: Date): string {
    Pad(d.year, 4) + ("-" + (Pad(d.month, 2) + ("-" + Pad(d.day, 2))))
  }

  predicate NotLater(a: Date, b: Date) {
    a.year < b.year || (a.year == b.year &&
      (a.month < b.month || (a.month == b.month && a.day <= b.day)))
  }

  function Power10(width: nat): nat {
    if width == 0 then 1 else 10 * Power10(width - 1)
  }

  /** Fixed-width decimals compare like the numbers they write, and ties are settled by what follows. */
  lemma {:induction false} PadOrder(a: nat, b: nat, width: nat, s: string, t: string)
    requires a < Power10(width) && b < Power10(width)
    ensures LexLe(Pad(a, width) + s, Pad(b, width) + t) <==> a < b || (a == b && LexLe(s, t))
    decreases width
  {
    if width == 0 {
      assert Pad(a, 0) + s == s && Pad(b, 0) + t == t;
    } else {
      var s', t' := [Digit(a % 10)] + s, [Digit(b % 10)] + t;
      assert Pad(a, width) + s == Pad(a / 10, width - 1) + s';
      assert Pad(b, width) + t == Pad(b / 10, width - 1) + t';
      PadOrder(a / 10, b / 10, width - 1, s', t');
      assert s'[1..] == s && t'[1..] == t;
      assert LexLe(s', t') <==> a % 10 < b % 10 || (a % 10 == b % 10 && LexLe(s, t));
    }
  }

  lemma SamePrefixOrder(c: char, s: string, t: string)
    ensures LexLe([c] + s, [c] + t) <==> LexLe(s, t)
  {
    assert ([c] + s)[1..] == s && ([c] + t)[1..] == t;
  }

  /** String order on revision strings is the order of their dates. */
  lemma RevisionOrder(a: Date, b: Date)
    requires Writable(a) && Writable(b)
    ensures LexLe(DateText(a), DateText(b)) <==> NotLater(a, b)
  {
    hide Pad, LexLe;
    var dayA, dayB := "-" + Pad(a.day, 2), "-" + Pad(b.day, 2);
    var restA, restB := "-" + (Pad(a.month, 2) + dayA), "-" + (Pad(b.month, 2) + dayB);
    assert Power10(2) == 100 && Power10(4) == 10000;
    PadOrder(a.year, b.year, 4, restA, restB);
    SamePrefixOrder('-', Pad(a.month, 2) + dayA, Pad(b.month, 2) + dayB);
    PadOrder(a.month, b.month, 2, dayA, dayB);
    SamePrefixOrder('-', Pad(a.day, 2), Pad(b.day, 2));
    DayOrder(a.day, b.day);
  }

  lemma DayOrder(a: nat, b: nat)
    requires a < 100 && b < 100
    ensures LexLe(Pad(a, 2), Pad(b, 2)) <==> a <= b
  {
    assert Power10(2) == 100;
    PadOrder(a, b, 2, "", "");
    assert Pad(a, 2) + "" == Pad(a, 2) && Pad(b, 2) + "" == Pad(b, 2);
  }

  const METADATA_DATE: Date := Date(2025, 11, 25)

  lemma MetadataRevisionText()
    ensures DateText(METADATA_DATE) == METADATA_REVISION
  {
    assert Pad(2025, 4) == "2025";
    assert Pad(11, 2) == "11" && Pad(25, 2) == "25";
  }

  /**
   The optional `serverInfo` members reach the peer exactly when they are set and the
   negotiated revision is dated 2025-11-25 or later; the name and version always do.
   */
  lemma MetadataByDate(config: Config, negotiated: Date)
    requires Writable(negotiated)
    ensures var info := ServerInfo(config, DateText(negotiated));
            var late := NotLater(METADATA_DATE, negotiated);
            && info.Obj?
            && Get(info, "name") == Some(Str(config.name)) && Get(info, "version") == Some(Str(config.version))
            && GetStr(info, "title") == (if late then config.title else None)
            && GetStr(info, "description") == (if late then config.description else None)
            && GetStr(info, "websiteUrl") == (if late then config.websiteUrl else None)
            && info.fields.Keys <= {"name", "version", "title", "description", "websiteUrl"}
  {
    hide DateText, LexLe;
    MetadataRevisionText();
    RevisionOrder(METADATA_DATE, negotiated);
  }

  /** The whole `initialize` result, read back through the keys a client looks up. */
  lemma InitializeAnswer(config: Config, params: Json)
    ensures var r := InitializeResult(config, params);
            var asked := GetStr(params, "protocolVersion");
            var version := NegotiateVersion(config, if asked.Some? then asked.value else config.LatestProtocolVersion());
            && GetStr(r, "protocolVersion") == Some(version)
            && Get(r, "serverInfo") == Some(ServerInfo(config, version))
            && GetStr(r, "instructions") == config.instructions
            && Get(r, "capabilities") == Some(Obj(map["tools" := Obj(map["listChanged" := Bool(config.toolsListChanged)])]))
            && (asked == None ==> version == config.LatestProtocolVersion())
            && Get(r, "tools") == None
  {
    hide ServerInfo;
  }
}
