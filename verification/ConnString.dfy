/** Quoting database settings into a libpq keyword/value connection string. */
module ConnString {
  import opened Text

  // ----- the printer -----------------------------------------------------------------------

  predicate Quotable(c: char) {
    c == '\'' || c == '\\'
  }

  function EscapeBody(v: string): string {
    if v == "" then "" else (if Quotable(v[0]) then ['\\', v[0]] else [v[0]]) + EscapeBody(v[1..])
  }

  function Escape(v: string): string {
    "'" + (EscapeBody(v) + "'")
  }

  /** The loop of both escapers; a `char` is a byte in Go and a code point in Rust. */
  method LibpqEscape(v: string) returns (out: string)
    ensures out == Escape(v)
  {
    out := "'";
    for i := 0 to |v|
      invariant out == "'" + EscapeBody(v[..i])
    {
      EscapeSnoc(v[..i], v[i]);
      assert v[..i + 1] == v[..i] + [v[i]];
      if v[i] == '\'' || v[i] == '\\' {
        out := out + "\\";
      }
      out := out + [v[i]];
    }
    assert v[..|v|] == v;
    out := out + "'";
  }

  lemma {:induction false} EscapeSnoc(v: string, c: char)
    ensures EscapeBody(v + [c]) == EscapeBody(v) + (if Quotable(c) then ['\\', c] else [c])
  {
    if v == "" {
      assert (v + [c])[1..] == "";
    } else {
      assert (v + [c])[1..] == v[1..] + [c];
      EscapeSnoc(v[1..], c);
    }
  }

  /** `k1='v1' k2='v2' …` */
  function Print(settings: seq<(string, string)>): string {
    if settings == [] then ""
    else
      var item := settings[0].0 + ("=" + Escape(settings[0].1));
      if |settings| == 1 then item else item + (" " + Print(settings[1..]))
  }

  datatype DatabaseConfig = DatabaseConfig(
    host: string, user: string, password: string, dbname: string, sslmode: string)

  /** The API's ConnStr. */
  function ApiSettings(d: DatabaseConfig): seq<(string, string)> {
    [("host", d.host), ("user", d.user), ("password", d.password), ("dbname", d.dbname), ("sslmode", d.sslmode)]
  }

  /** The indexer's and aggregator's: TLS is chosen separately. */
  function ToolSettings(d: DatabaseConfig): seq<(string, string)> {
    [("host", d.host), ("user", d.user), ("password", d.password), ("dbname", d.dbname)]
  }

  // ----- libpq's reader: section 34.1.1.1 of the PostgreSQL 16 manual --------------------------

  predicate Blank(c: char) {
    c == ' ' || c == '\t' || c == '\n' || c == '\r' || c == '\U{0B}' || c == '\U{0C}'
  }

  function SkipBlanks(s: string): (r: string)
    ensures |r| <= |s|
  {
    if s != "" && Blank(s[0]) then SkipBlanks(s[1..]) else s
  }

  function KeywordLength(s: string): (n: nat)
    ensures n <= |s|
  {
    if s == "" || s[0] == '=' || Blank(s[0]) then 0 else 1 + KeywordLength(s[1..])
  }

  /** The rest of a quoted value: its text and what follows the closing quote. */
  function QuotedValue(s: string): (r: Option<(string, string)>)
    ensures r.Some? ==> |r.value.1| < |s|
  {
    if s == "" then None
    else if s[0] == '\'' then Some(("", s[1..]))
    else if s[0] == '\\' then
      if |s| == 1 then None
      else
        var r := QuotedValue(s[2..]);
        if r.None? then None else Some(([s[1]] + r.value.0, r.value.1))
    else
      var r := QuotedValue(s[1..]);
      if r.None? then None else Some(([s[0]] + r.value.0, r.value.1))
  }

  function BareValue(s: string): (r: (string, string))
    ensures |r.1| <= |s|
  {
    if s == "" || Blank(s[0]) then ("", s)
    else if s[0] == '\\' then
      if |s| == 1 then ("", "") else var r := BareValue(s[2..]); ([s[1]] + r.0, r.1)
    else var r := BareValue(s[1..]); ([s[0]] + r.0, r.1)
  }

  function ReadSettings(s: string): Option<seq<(string, string)>>
    decreases |s|
  {
    var t := SkipBlanks(s);
    if t == "" then Some([])
    else
      var n := KeywordLength(t);
      var u := SkipBlanks(t[n..]);
      if u == "" || u[0] != '=' then None
      else
        var w := SkipBlanks(u[1..]);
        var v := if w != "" && w[0] == '\'' then QuotedValue(w[1..]) else Some(BareValue(w));
        if v.None? then None
        else
          var more := ReadSettings(v.value.1);
          if more.None? then None else Some([(t[..n], v.value.0)] + more.value)
  }

  // ----- reading back what is printed -------------------------------------------------------------

  /** The reader undoes the escaping and stops at the printer's closing quote. */
  lemma {:induction false} QuotedReadsBack(v: string, rest: string)
    ensures QuotedValue(EscapeBody(v) + ("'" + rest)) == Some((v, rest))
  {
    var s := EscapeBody(v) + ("'" + rest);
    if v == "" {
      assert s == "'" + rest && s[1..] == rest;
    } else {
      QuotedReadsBack(v[1..], rest);
      var more := EscapeBody(v[1..]) + ("'" + rest);
      assert v == [v[0]] + v[1..];
      if Quotable(v[0]) {
        assert s[0] == '\\' && s[1] == v[0] && s[2..] == more;
      } else {
        assert s[0] == v[0] && s[1..] == more;
      }
    }
  }

  predicate PlainKeyword(k: string) {
    k != "" && forall c | c in k :: c != '=' && !Blank(c)
  }

  lemma {:induction false} KeywordReadsBack(k: string, rest: string)
    requires forall c | c in k :: c != '=' && !Blank(c)
    ensures KeywordLength(k + ("=" + rest)) == |k|
  {
    if k == "" {
      assert k + ("=" + rest) == "=" + rest;
    } else {
      assert k[0] in k && (k + ("=" + rest))[1..] == k[1..] + ("=" + rest);
      assert forall c | c in k[1..] :: c in k;
      KeywordReadsBack(k[1..], rest);
    }
  }

  lemma {:induction false} ItemReads(k: string, quoted: string, v: string, rest: string)
    requires PlainKeyword(k) && quoted != "" && quoted[0] == '\'' && QuotedValue(quoted[1..]) == Some((v, rest))
    ensures ReadSettings(k + ("=" + quoted)) ==
            (var more := ReadSettings(rest); if more.None? then None else Some([(k, v)] + more.value))
  {
    var s := k + ("=" + quoted);
    assert k[0] in k && s[0] == k[0];
    KeywordReadsBack(k, quoted);
    assert s[..|k|] == k && s[|k|..] == "=" + quoted && ("=" + quoted)[1..] == quoted;
  }

  lemma OneReadsBack(k: string, v: string, rest: string)
    requires PlainKeyword(k)
    ensures ReadSettings(k + ("=" + Escape(v)) + rest) ==
            (var more := ReadSettings(rest); if more.None? then None else Some([(k, v)] + more.value))
  {
    var quoted := "'" + (EscapeBody(v) + ("'" + rest));
    assert k + ("=" + Escape(v)) + rest == k + ("=" + quoted);
    assert quoted[1..] == EscapeBody(v) + ("'" + rest);
    QuotedReadsBack(v, rest);
    ItemReads(k, quoted, v, rest);
  }

  lemma LeadingBlankSkipped(s: string)
    ensures ReadSettings(" " + s) == ReadSettings(s)
  {
    assert (" " + s)[1..] == s;
  }

  /** A printed connection string reads back as exactly the settings it was made
      of, whatever characters the values hold, with nothing added. */
  lemma {:induction false} PrintReadsBack(settings: seq<(string, string)>)
    requires forall p | p in settings :: PlainKeyword(p.0)
    ensures ReadSettings(Print(settings)) == Some(settings)
  {
    if settings != [] {
      var (k, v) := settings[0];
      var more := settings[1..];
      assert settings[0] in settings && settings == [(k, v)] + more;
      PrintReadsBack(more);
      if more == [] {
        OneReadsBack(k, v, "");
        assert k + ("=" + Escape(v)) + "" == Print(settings);
      } else {
        OneReadsBack(k, v, " " + Print(more));
        LeadingBlankSkipped(Print(more));
      }
    }
  }

  lemma KeywordsArePlain()
    ensures PlainKeyword("host") && PlainKeyword("user") && PlainKeyword("password")
    ensures PlainKeyword("dbname") && PlainKeyword("sslmode")
  {
  }

  /** Each setting reads back as its own field, and only the API's string chooses TLS. */
  lemma BothConnectionStringsReadBack(d: DatabaseConfig)
    ensures ReadSettings(Print(ApiSettings(d))) == Some(
              [("host", d.host), ("user", d.user), ("password", d.password), ("dbname", d.dbname),
               ("sslmode", d.sslmode)])
    ensures ReadSettings(Print(ToolSettings(d))) == Some(
              [("host", d.host), ("user", d.user), ("password", d.password), ("dbname", d.dbname)])
  {
    KeywordsArePlain();
    assert forall p | p in ApiSettings(d) :: PlainKeyword(p.0);
    assert forall p | p in ToolSettings(d) :: PlainKeyword(p.0);
    PrintReadsBack(ApiSettings(d));
    PrintReadsBack(ToolSettings(d));
  }

  // ----- bytes and code points ---------------------------------------------------------------------

  function Byte(n: nat): char
    requires n < 256
  {
    n as char
  }

  /** The UTF-8 encoding of one code point, as bytes. */
  function Utf8Char(c: char): string {
    var n := c as int;
    if n < 0x80 then [c]
    else if n < 0x800 then [Byte(0xC0 + n / 0x40), Byte(0x80 + n % 0x40)]
    else if n < 0x1_0000 then [Byte(0xE0 + n / 0x1000), Byte(0x80 + n / 0x40 % 0x40), Byte(0x80 + n % 0x40)]
    else
      [Byte(0xF0 + n / 0x4_0000), Byte(0x80 + n / 0x1000 % 0x40), Byte(0x80 + n / 0x40 % 0x40), Byte(0x80 + n % 0x40)]
  }

  function Utf8(s: string): string {
    if s == "" then "" else Utf8Char(s[0]) + Utf8(s[1..])
  }

  lemma {:induction false} EscapeAppend(a: string, b: string)
    ensures EscapeBody(a + b) == EscapeBody(a) + EscapeBody(b)
  {
    if a == "" {
      assert a + b == b;
    } else {
      assert (a + b)[1..] == a[1..] + b;
      EscapeAppend(a[1..], b);
    }
  }

  lemma {:induction false} NothingToEscape(s: string)
    requires forall c | c in s :: !Quotable(c)
    ensures EscapeBody(s) == s
  {
    if s != "" { NothingToEscape(s[1..]); }
  }

  lemma {:induction false} Utf8Append(a: string, b: string)
    ensures Utf8(a + b) == Utf8(a) + Utf8(b)
  {
    if a == "" {
      assert a + b == b;
    } else {
      assert (a + b)[1..] == a[1..] + b;
      Utf8Append(a[1..], b);
    }
  }

  lemma Utf8One(c: char)
    ensures Utf8([c]) == Utf8Char(c)
  {
    assert [c][1..] == "";
  }

  /** Escaping the bytes of a text is encoding its escaped code points: neither quote nor
      backslash can appear inside a multi-byte character. */
  lemma {:induction false} EscapersAgree(v: string)
    ensures EscapeBody(Utf8(v)) == Utf8(EscapeBody(v))
  {
    if v != "" {
      var c, more := v[0], v[1..];
      EscapersAgree(more);
      EscapeAppend(Utf8Char(c), Utf8(more));
      EscapeCharAgrees(c);
      Utf8Append(if Quotable(c) then ['\\', c] else [c], EscapeBody(more));
    }
  }

  lemma EscapeCharAgrees(c: char)
    ensures EscapeBody(Utf8Char(c)) == Utf8(if Quotable(c) then ['\\', c] else [c])
  {
    Utf8One(c);
    if Quotable(c) {
      assert ['\\', c] == ['\\'] + [c] && [c][1..] == "";
      Utf8Append(['\\'], [c]);
      Utf8One('\\');
    } else {
      NothingToEscape(Utf8Char(c));
    }
  }
}
