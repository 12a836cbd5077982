/** The per-client policy file: parsing it into a table and looking clients up. */
module MacPolicy {
  import opened ConfigLines
  import opened Packets
  import opened SubOptions

  datatype ActionKind = Blackhole | Default | Server

  datatype ReplyAction = ToIngress | DropReplies | ToMatching(selector: string)

  datatype Action = Action(kind: ActionKind, server: string, reply: ReplyAction)

  /** The zero value denies, so a client no line mentions is dropped. */
  const DenyAction := Action(Blackhole, "", ToIngress)

  datatype Table = Table(entries: map<seq<Byte>, Action>, fallback: Action)

  /** The identifier at `k` has an entry, and none before it does. */
  predicate IsFirstMatch(t: Table, ids: seq<seq<Byte>>, k: nat) {
    && k < |ids| && ids[k] != [] && ids[k] in t.entries
    && forall j :: 0 <= j < k ==> ids[j] == [] || ids[j] !in t.entries
  }

  lemma {:induction false} FirstMatchOfTail(t: Table, ids: seq<seq<Byte>>, id: Option<seq<Byte>>)
    requires ids != [] && (ids[0] == [] || ids[0] !in t.entries)
    requires id.Some? ==> exists k: nat :: IsFirstMatch(t, ids[1..], k) && ids[1..][k] == id.value
    ensures id.Some? ==> exists k: nat :: IsFirstMatch(t, ids, k) && ids[k] == id.value
  {
    if id.Some? {
      var k: nat :| IsFirstMatch(t, ids[1..], k) && ids[1..][k] == id.value;
      forall j | 0 <= j < k + 1
        ensures ids[j] == [] || ids[j] !in t.entries
      {
        if j > 0 {
          assert ids[j] == ids[1..][j - 1];
        }
      }
      assert IsFirstMatch(t, ids, k + 1);
    }
  }

  /** The action of the first non-empty identifier with an entry and that identifier, else the fallback. */
  function LookupID(t: Table, ids: seq<seq<Byte>>): (r: (Action, Option<seq<Byte>>))
    ensures r.1.Some? ==> r.1.value in ids && r.1.value != [] && r.1.value in t.entries && r.0 == t.entries[r.1.value]
    ensures r.1.Some? ==> exists k: nat :: IsFirstMatch(t, ids, k) && ids[k] == r.1.value
    ensures r.1.None? ==> r.0 == t.fallback && forall id :: id in ids && id != [] ==> id !in t.entries
  {
    if ids == [] then (t.fallback, None)
    else if ids[0] != [] && ids[0] in t.entries then
      assert ids[0] in ids && IsFirstMatch(t, ids, 0);
      (t.entries[ids[0]], Some(ids[0]))
    else
      assert forall id :: id in ids <==> id == ids[0] || id in ids[1..];
      var r := LookupID(t, ids[1..]);
      FirstMatchOfTail(t, ids, r.1);
      r
  }

  // ----- Tokens -----

  /** Library parsers the policy relies on: MAC addresses, and the syntax of reply selectors. */
  datatype Syntax = Syntax(parseMac: string -> Option<seq<Byte>>, validSelector: string -> bool)

  predicate IsKeyword(token: string) {
    token != "" && token[0] == '@'
  }

  /** An unknown `@` word is an error, never a host name. */
  function ParseAction(token: string): (r: Option<Action>)
    ensures r.None? ==> IsKeyword(token)
    ensures r.Some? && IsKeyword(token) ==> r.value.server == "" && !r.value.kind.Server?
    ensures r.Some? && r.value.kind.Server? ==> r.value.server == token && token != ""
  {
    if token == "" || token == "@default" then Some(Action(Default, "", ToIngress))
    else if token == "@blackhole" then Some(Action(Blackhole, "", ToIngress))
    else if IsKeyword(token) then None
    else Some(Action(Server, token, ToIngress))
  }

  function ParseReplyAction(syntax: Syntax, token: string): (r: Option<ReplyAction>) {
    if token == "" || token == "@default" then Some(ToIngress)
    else if token == "@blackhole" then Some(DropReplies)
    else if IsKeyword(token) || !syntax.validSelector(token) then None
    else Some(ToMatching(token))
  }

  function HexDigit(c: char): (r: Option<Byte>)
    ensures r.Some? ==> r.value < 16
  {
    if '0' <= c <= '9' then Some(c as int - '0' as int)
    else if 'a' <= c <= 'f' then Some(c as int - 'a' as int + 10)
    else if 'A' <= c <= 'F' then Some(c as int - 'A' as int + 10)
    else None
  }

  /** `hex.DecodeString`: an even number of hexadecimal digits. */
  function HexDecode(s: string): (r: Option<seq<Byte>>)
    ensures r.Some? ==> |s| == 2 * |r.value|
  {
    if s == "" then Some([])
    else if |s| == 1 || HexDigit(s[0]).None? || HexDigit(s[1]).None? then None
    else match HexDecode(s[2..])
      case None => None
      case Some(tail) => Some([16 * HexDigit(s[0]).value + HexDigit(s[1]).value] + tail)
  }

  /** A `0x` key is raw bytes that fit the policy tag; anything else must be a six-byte MAC. */
  function ParseIdentifier(syntax: Syntax, token: string): (r: Option<seq<Byte>>)
    ensures r.Some? ==> 0 < |r.value| <= MAX_POLICY_TAG_SIZE
    ensures r.Some? ==> |r.value| == MAC_LENGTH || (|token| >= 2 && HexDecode(token[2..]) == r)
  {
    if |token| >= 2 && token[0] == '0' && (token[1] == 'x' || token[1] == 'X') then
      match HexDecode(token[2..])
      case None => None
      case Some(id) => if |id| == 0 || |id| > MAX_POLICY_TAG_SIZE then None else Some(id)
    else
      match syntax.parseMac(token)
      case None => None
      case Some(id) => if |id| != MAC_LENGTH then None else Some(id)
  }

  // ----- Lines -----

  datatype Line = Blank | Bad | CatchAll(action: Action) | Entry(key: seq<Byte>, action: Action)

  /** One line, cut into its fields. */
  function ParseLine(syntax: Syntax, fields: seq<string>): (line: Line)
    ensures line.Entry? ==> 0 < |line.key| <= MAX_POLICY_TAG_SIZE
  {
    if |fields| == 0 then Blank
    else if |fields| > 3 then Bad
    else
      var action := ParseAction(if |fields| > 1 then fields[1] else "");
      var reply := ParseReplyAction(syntax, if |fields| > 2 then fields[2] else "");
      if action.None? || reply.None? then Bad
      else
        var full := action.value.(reply := reply.value);
        if fields[0] == "*" then CatchAll(full)
        else match ParseIdentifier(syntax, fields[0])
          case None => Bad
          case Some(id) => Entry(id, full)
  }

  // ----- What a line means, from its tokens -----

  predicate IsHexChar(c: char) {
    '0' <= c <= '9' || 'a' <= c <= 'f' || 'A' <= c <= 'F'
  }

  /** A prefixed key: one to 241 bytes, each as two hexadecimal digits. */
  predicate IsHexKey(key: string) {
    && 4 <= |key| <= 484 && |key| % 2 == 0
    && key[0] == '0' && (key[1] == 'x' || key[1] == 'X')
    && forall k :: 2 <= k < |key| ==> IsHexChar(key[k])
  }

  predicate HasHexPrefix(key: string) {
    |key| >= 2 && key[0] == '0' && (key[1] == 'x' || key[1] == 'X')
  }

  predicate IsMacKey(syntax: Syntax, key: string) {
    !HasHexPrefix(key) && syntax.parseMac(key).Some? && |syntax.parseMac(key).value| == 6
  }

  /** A reserved word other than the two there are. */
  predicate IsUnknownWord(token: string) {
    token != "" && token[0] == '@' && token != "@default" && token != "@blackhole"
  }

  /** The ways a line can be wrong. */
  predicate IsWrong(syntax: Syntax, fields: seq<string>) {
    || |fields| > 3
    || (|fields| >= 2 && IsUnknownWord(fields[1]))
    || (|fields| == 3 && (IsUnknownWord(fields[2]) ||
                          (fields[2] != "" && fields[2][0] != '@' && !syntax.validSelector(fields[2]))))
    || (|fields| >= 1 && fields[0] != "*" && !IsHexKey(fields[0]) && !IsMacKey(syntax, fields[0]))
  }

  /** A column that is absent or says so stands for the default. */
  predicate SaysDefault(fields: seq<string>, column: nat) {
    |fields| <= column || fields[column] == "" || fields[column] == "@default"
  }

  predicate SaysBlackhole(fields: seq<string>, column: nat) {
    |fields| > column && fields[column] == "@blackhole"
  }

  lemma {:induction false} HexDecodes(s: string)
    ensures HexDecode(s).Some? <==> |s| % 2 == 0 && forall k :: 0 <= k < |s| ==> IsHexChar(s[k])
  {
    if |s| >= 2 {
      HexDecodes(s[2..]);
      assert forall k :: 2 <= k < |s| ==> s[k] == s[2..][k - 2];
      if |s| % 2 == 0 && forall k :: 0 <= k < |s| ==> IsHexChar(s[k]) {
        assert IsHexChar(s[0]) && IsHexChar(s[1]);
      }
    } else if |s| == 1 {
      assert HexDecode(s).None?;
    }
  }

  /** An identifier is accepted exactly when it is one of the two forms, and denotes the bytes it spells. */
  lemma {:induction false} IdentifierExactly(syntax: Syntax, token: string)
    ensures ParseIdentifier(syntax, token).Some? <==> IsHexKey(token) || IsMacKey(syntax, token)
    ensures IsHexKey(token) ==> ParseIdentifier(syntax, token) == HexDecode(token[2..])
    ensures IsMacKey(syntax, token) ==> ParseIdentifier(syntax, token) == syntax.parseMac(token)
  {
    if HasHexPrefix(token) {
      var s := token[2..];
      HexDecodes(s);
      assert forall k :: 0 <= k < |s| ==> s[k] == token[k + 2];
      assert forall k :: 2 <= k < |token| ==> token[k] == s[k - 2];
    }
  }

  /**
   * What every line means, from its tokens alone: no fields is blank; otherwise it is bad exactly when it is wrong in
   * one of the named ways, and else its key, forward action and reply action are what its columns say.
   */
  lemma {:induction false} LineExactly(syntax: Syntax, fields: seq<string>)
    ensures var line := ParseLine(syntax, fields);
      && (line.Blank? <==> fields == [])
      && (line.Bad? <==> IsWrong(syntax, fields))
      && (line.CatchAll? <==> fields != [] && !IsWrong(syntax, fields) && fields[0] == "*")
      && (line.Entry? ==>
            && (IsHexKey(fields[0]) ==> HexDecode(fields[0][2..]) == Some(line.key))
            && (IsMacKey(syntax, fields[0]) ==> syntax.parseMac(fields[0]) == Some(line.key)))
    ensures var line := ParseLine(syntax, fields);
      line.Entry? || line.CatchAll? ==>
        && (SaysDefault(fields, 1) ==> line.action.kind.Default? && line.action.server == "")
        && (SaysBlackhole(fields, 1) ==> line.action.kind.Blackhole? && line.action.server == "")
        && (!SaysDefault(fields, 1) && !SaysBlackhole(fields, 1) ==>
              line.action.kind.Server? && line.action.server == fields[1])
        && (SaysDefault(fields, 2) ==> line.action.reply.ToIngress?)
        && (SaysBlackhole(fields, 2) ==> line.action.reply.DropReplies?)
        && (!SaysDefault(fields, 2) && !SaysBlackhole(fields, 2) ==> line.action.reply == ToMatching(fields[2]))
  {
    hide HexDecode, IsHexKey, IsMacKey, ParseIdentifier;
    if fields != [] {
      IdentifierExactly(syntax, fields[0]);
    }
  }

  /** The action of the last line for `key`, found by scanning the file backwards. */
  function ScanFor(syntax: Syntax, lines: seq<seq<string>>, key: seq<Byte>): Option<Action> {
    if lines == [] then None
    else
      var line := ParseLine(syntax, lines[|lines| - 1]);
      if line.Entry? && line.key == key then Some(line.action) else ScanFor(syntax, lines[..|lines| - 1], key)
  }

  /** The action of the last catch-all line, or denial. */
  function ScanFallback(syntax: Syntax, lines: seq<seq<string>>): Action {
    if lines == [] then DenyAction
    else
      var line := ParseLine(syntax, lines[|lines| - 1]);
      if line.CatchAll? then line.action else ScanFallback(syntax, lines[..|lines| - 1])
  }

  /** A lookup that reads the file instead of an index. */
  function Scan(syntax: Syntax, lines: seq<seq<string>>, ids: seq<seq<Byte>>): (Action, Option<seq<Byte>>) {
    if ids == [] then (ScanFallback(syntax, lines), None)
    else if ids[0] != [] && ScanFor(syntax, lines, ids[0]).Some? then
      (ScanFor(syntax, lines, ids[0]).value, Some(ids[0]))
    else Scan(syntax, lines, ids[1..])
  }

  /** The table holds, for every key, the action of its last line. */
  ghost predicate Indexes(syntax: Syntax, lines: seq<seq<string>>, t: Table) {
    && t.fallback == ScanFallback(syntax, lines)
    && forall key :: ScanFor(syntax, lines, key) == if key in t.entries then Some(t.entries[key]) else None
  }

  predicate Accepts(syntax: Syntax, lines: seq<seq<string>>) {
    forall k :: 0 <= k < |lines| ==> !ParseLine(syntax, lines[k]).Bad?
  }

  lemma {:induction false} ScanStep(syntax: Syntax, lines: seq<seq<string>>, k: nat, key: seq<Byte>)
    requires k < |lines|
    ensures var line := ParseLine(syntax, lines[k]);
      ScanFor(syntax, lines[..k + 1], key) ==
        if line.Entry? && line.key == key then Some(line.action) else ScanFor(syntax, lines[..k], key)
    ensures var line := ParseLine(syntax, lines[k]);
      ScanFallback(syntax, lines[..k + 1]) ==
        if line.CatchAll? then line.action else ScanFallback(syntax, lines[..k])
  {
    assert lines[..k + 1][..k] == lines[..k];
  }

  /** What one good line does to the table. */
  function Apply(t: Table, line: Line): Table {
    match line
    case Entry(key, action) => t.(entries := t.entries[key := action])
    case CatchAll(action) => t.(fallback := action)
    case Blank => t
    case Bad => t
  }

  lemma {:induction false} IndexesStep(syntax: Syntax, lines: seq<seq<string>>, k: nat, t: Table)
    requires k < |lines| && Indexes(syntax, lines[..k], t)
    ensures Indexes(syntax, lines[..k + 1], Apply(t, ParseLine(syntax, lines[k])))
  {
    var t' := Apply(t, ParseLine(syntax, lines[k]));
    ScanStep(syntax, lines, k, []);
    forall key
      ensures ScanFor(syntax, lines[..k + 1], key) == if key in t'.entries then Some(t'.entries[key]) else None
    {
      ScanStep(syntax, lines, k, key);
    }
  }

  lemma {:induction false} IndexesNothing(syntax: Syntax)
    ensures Indexes(syntax, [], Table(map[], DenyAction))
  {
  }

  lemma {:induction false} NotAccepted(syntax: Syntax, lines: seq<seq<string>>, k: nat)
    requires k < |lines| && ParseLine(syntax, lines[k]).Bad?
    ensures !Accepts(syntax, lines)
  {
  }

  /** The fields of every line of a file. */
  function Cut(text: seq<string>): (lines: seq<seq<string>>)
    ensures |lines| == |text| && forall k :: 0 <= k < |text| ==> lines[k] == LineFields(text[k])
  {
    seq(|text|, k requires 0 <= k < |text| => LineFields(text[k]))
  }

  /** A text is accepted exactly when none of its lines is wrong. */
  lemma {:induction false} AcceptsExactly(syntax: Syntax, text: seq<string>)
    ensures Accepts(syntax, Cut(text)) <==> forall k :: 0 <= k < |text| ==> !IsWrong(syntax, LineFields(text[k]))
  {
    hide ParseLine, IsWrong, LineFields;
    forall k | 0 <= k < |text|
      ensures ParseLine(syntax, Cut(text)[k]).Bad? <==> IsWrong(syntax, LineFields(text[k]))
    {
      LineExactly(syntax, LineFields(text[k]));
    }
  }

  /** One bad line, or a failed read, yields no table at all. */
  method Parse(syntax: Syntax, text: seq<string>, readError: bool) returns (r: Option<Table>)
    ensures r.Some? <==> Accepts(syntax, Cut(text)) && !readError
    ensures r.Some? <==> !readError && forall k :: 0 <= k < |text| ==> !IsWrong(syntax, LineFields(text[k]))
    ensures r.Some? ==> Indexes(syntax, Cut(text), r.value)
    ensures r.Some? ==> forall key :: key in r.value.entries ==> 0 < |key| <= MAX_POLICY_TAG_SIZE
  {
    hide ParseLine, ScanFor, ScanFallback, LineFields, IsWrong;
    ghost var lines := Cut(text);
    var t := Table(map[], DenyAction);
    IndexesNothing(syntax);
    assert lines[..0] == [];
    for k := 0 to |text|
      invariant Accepts(syntax, lines[..k])
      invariant Indexes(syntax, lines[..k], t)
      invariant forall key :: key in t.entries ==> 0 < |key| <= MAX_POLICY_TAG_SIZE
    {
      IndexesStep(syntax, lines, k, t);
      var fields := Fields(text[k]);
      match ParseLine(syntax, fields) {
        case Bad =>
          NotAccepted(syntax, lines, k);
          AcceptsExactly(syntax, text);
          return None;
        case CatchAll(action) =>
          t := t.(fallback := action);
        case Entry(key, action) =>
          t := t.(entries := t.entries[key := action]);
        case Blank =>
          continue;
      }
    }
    assert lines[..|lines|] == lines;
    AcceptsExactly(syntax, text);
    r := if readError then None else Some(t);
  }

  // ----- The table agrees with the file -----

  /** Looking up in the table is scanning the file, for every list of identifiers. */
  lemma {:induction false} LookupIsScan(syntax: Syntax, lines: seq<seq<string>>, t: Table, ids: seq<seq<Byte>>)
    requires Indexes(syntax, lines, t)
    ensures LookupID(t, ids) == Scan(syntax, lines, ids)
  {
    if ids != [] {
      assert ScanFor(syntax, lines, ids[0]) == if ids[0] in t.entries then Some(t.entries[ids[0]]) else None;
      LookupIsScan(syntax, lines, t, ids[1..]);
    }
  }

  /** Two lines whose keys denote the same bytes share one entry, and the later line decides it. */
  lemma {:induction false} LastLineWins(syntax: Syntax, lines: seq<seq<string>>, t: Table, k: nat)
    requires Indexes(syntax, lines, t) && k < |lines|
    requires ParseLine(syntax, lines[k]).Entry?
    requires forall j :: k < j < |lines| ==>
      !(ParseLine(syntax, lines[j]).Entry? && ParseLine(syntax, lines[j]).key == ParseLine(syntax, lines[k]).key)
    ensures var line := ParseLine(syntax, lines[k]);
      line.key in t.entries && t.entries[line.key] == line.action
  {
    var key := ParseLine(syntax, lines[k]).key;
    ScanFinds(syntax, lines, k, |lines|);
    assert lines[..|lines|] == lines;
    assert ScanFor(syntax, lines, key) == if key in t.entries then Some(t.entries[key]) else None;
  }

  /** The last catch-all line decides for clients without an entry; without one they are denied. */
  lemma {:induction false} CatchAllDecides(syntax: Syntax, lines: seq<seq<string>>, t: Table, n: nat)
    requires Indexes(syntax, lines, t) && n <= |lines|
    requires forall j :: n <= j < |lines| ==> !ParseLine(syntax, lines[j]).CatchAll?
    ensures n == 0 ==> t.fallback.kind.Blackhole?
    ensures n > 0 && ParseLine(syntax, lines[n - 1]).CatchAll? ==> t.fallback == ParseLine(syntax, lines[n - 1]).action
  {
    FallbackUpTo(syntax, lines, n, |lines|);
    assert lines[..|lines|] == lines;
    if n > 0 {
      ScanStep(syntax, lines, n - 1, []);
    } else {
      assert lines[..0] == [];
    }
  }

  lemma {:induction false} FallbackUpTo(syntax: Syntax, lines: seq<seq<string>>, n: nat, m: nat)
    requires n <= m <= |lines| && forall j :: n <= j < m ==> !ParseLine(syntax, lines[j]).CatchAll?
    ensures ScanFallback(syntax, lines[..m]) == ScanFallback(syntax, lines[..n])
  {
    if n < m {
      ScanStep(syntax, lines, m - 1, []);
      FallbackUpTo(syntax, lines, n, m - 1);
    }
  }

  /** A key no line spells has no entry. */
  lemma {:induction false} NoLineNoEntry(syntax: Syntax, lines: seq<seq<string>>, t: Table, key: seq<Byte>)
    requires Indexes(syntax, lines, t)
    requires forall j :: 0 <= j < |lines| ==>
      !(ParseLine(syntax, lines[j]).Entry? && ParseLine(syntax, lines[j]).key == key)
    ensures key !in t.entries
  {
    ScanMisses(syntax, lines, key);
  }

  lemma {:induction false} ScanMisses(syntax: Syntax, lines: seq<seq<string>>, key: seq<Byte>)
    requires forall j :: 0 <= j < |lines| ==>
      !(ParseLine(syntax, lines[j]).Entry? && ParseLine(syntax, lines[j]).key == key)
    ensures ScanFor(syntax, lines, key).None?
  {
    if lines != [] {
      ScanMisses(syntax, lines[..|lines| - 1], key);
    }
  }

  lemma {:induction false} ScanFinds(syntax: Syntax, lines: seq<seq<string>>, k: nat, n: nat)
    requires k < n <= |lines|
    requires ParseLine(syntax, lines[k]).Entry?
    requires forall j :: k < j < n ==>
      !(ParseLine(syntax, lines[j]).Entry? && ParseLine(syntax, lines[j]).key == ParseLine(syntax, lines[k]).key)
    ensures ScanFor(syntax, lines[..n], ParseLine(syntax, lines[k]).key) == Some(ParseLine(syntax, lines[k]).action)
  {
    ScanStep(syntax, lines, n - 1, ParseLine(syntax, lines[k]).key);
    if k < n - 1 {
      ScanFinds(syntax, lines, k, n - 1);
    }
  }

  function HexChar(n: Byte): (c: char)
    requires n < 16
    ensures HexDigit(c) == Some(n)
  {
    if n < 10 then ('0' as int + n) as char else ('a' as int + n - 10) as char
  }

  function HexEncode(id: seq<Byte>): string {
    if id == [] then "" else [HexChar(id[0] / 16), HexChar(id[0] % 16)] + HexEncode(id[1..])
  }

  lemma {:induction false} HexRoundTrip(id: seq<Byte>)
    ensures HexDecode(HexEncode(id)) == Some(id)
  {
    if id != [] {
      HexRoundTrip(id[1..]);
      var s := HexEncode(id);
      assert s[2..] == HexEncode(id[1..]);
      assert s[0] == HexChar(id[0] / 16) && s[1] == HexChar(id[0] % 16);
      assert [16 * (id[0] / 16) + id[0] % 16] + id[1..] == id;
    }
  }

  /** Every identifier of an allowed size can be written in a policy file, and is read back as the same bytes. */
  lemma {:induction false} EveryKeyHasASpelling(syntax: Syntax, id: seq<Byte>)
    ensures ParseIdentifier(syntax, "0x" + HexEncode(id)) == if 0 < |id| <= MAX_POLICY_TAG_SIZE then Some(id) else None
  {
    HexRoundTrip(id);
    assert ("0x" + HexEncode(id))[2..] == HexEncode(id);
  }

  function UpperDigit(c: char): char {
    if 'a' <= c <= 'f' then (c as int - 'a' as int + 'A' as int) as char else c
  }

  function UpperHex(s: string): (r: string)
    ensures |r| == |s|
  {
    seq(|s|, k requires 0 <= k < |s| => UpperDigit(s[k]))
  }

  /** Upper and lower case spell the same bytes. */
  lemma {:induction false} HexCaseInsensitive(s: string)
    ensures HexDecode(UpperHex(s)) == HexDecode(s)
  {
    if |s| >= 2 {
      assert UpperHex(s)[2..] == UpperHex(s[2..]);
      HexCaseInsensitive(s[2..]);
    }
  }

  // ----- Which tables are files -----

  /** An action some line denotes: the server and the selector are fields, and no reserved words. */
  predicate Writable(syntax: Syntax, a: Action) {
    && (if a.kind.Server? then IsField(a.server) && !IsKeyword(a.server) else a.server == "")
    && (a.reply.ToMatching? ==>
          IsField(a.reply.selector) && !IsKeyword(a.reply.selector) && syntax.validSelector(a.reply.selector))
  }

  function ActionToken(a: Action): string {
    match a.kind
    case Blackhole => "@blackhole"
    case Default => "@default"
    case Server => a.server
  }

  function ReplyToken(r: ReplyAction): string {
    match r
    case ToIngress => "@default"
    case DropReplies => "@blackhole"
    case ToMatching(selector) => selector
  }

  function LineFor(key: string, a: Action): seq<string> {
    [key, ActionToken(a), ReplyToken(a.reply)]
  }

  lemma {:induction false} HexIsWord(id: seq<Byte>)
    ensures forall k :: 0 <= k < |HexEncode(id)| ==> !IsSpace(HexEncode(id)[k])
  {
    if id != [] {
      HexIsWord(id[1..]);
    }
  }

  lemma {:induction false} LineForFields(syntax: Syntax, key: string, a: Action)
    requires Writable(syntax, a) && IsField(key)
    ensures AllFields(LineFor(key, a))
  {
    assert IsField("@blackhole") && IsField("@default");
  }

  lemma {:induction false} KeyIsField(id: seq<Byte>)
    ensures IsField("0x" + HexEncode(id)) && IsField("*")
  {
    HexIsWord(id);
    var key := "0x" + HexEncode(id);
    forall k | 0 <= k < |key|
      ensures !IsSpace(key[k])
    {
      if k >= 2 {
        assert key[k] == HexEncode(id)[k - 2];
      }
    }
  }

  lemma {:induction false} ParseLineFor(syntax: Syntax, id: seq<Byte>, a: Action)
    requires Writable(syntax, a)
    ensures ParseLine(syntax, LineFor("*", a)) == CatchAll(a)
    ensures 0 < |id| <= MAX_POLICY_TAG_SIZE ==> ParseLine(syntax, LineFor("0x" + HexEncode(id), a)) == Entry(id, a)
  {
    hide IsSpace;
    EveryKeyHasASpelling(syntax, id);
    assert IsKeyword("@blackhole") && IsKeyword("@default");
    assert ParseAction(ActionToken(a)) == Some(a.(reply := ToIngress));
    assert ParseReplyAction(syntax, ReplyToken(a.reply)) == Some(a.reply);
  }

  function TextFor(key: string, a: Action): string {
    Joined(LineFor(key, a))
  }

  /** Every writable action comes back from the text written for it, under every key of an allowed size. */
  lemma {:induction false} LineRoundTrip(syntax: Syntax, id: seq<Byte>, a: Action)
    requires Writable(syntax, a)
    ensures '\n' !in TextFor("*", a) && ParseLine(syntax, LineFields(TextFor("*", a))) == CatchAll(a)
    ensures 0 < |id| <= MAX_POLICY_TAG_SIZE ==>
      var text := TextFor("0x" + HexEncode(id), a); '\n' !in text && ParseLine(syntax, LineFields(text)) == Entry(id, a)
  {
    hide Writable, LineFor, ParseLine, LineFields, IsField;
    KeyIsField(id);
    LineForFields(syntax, "*", a);
    LineForFields(syntax, "0x" + HexEncode(id), a);
    JoinedRoundTrip(LineFor("*", a));
    JoinedRoundTrip(LineFor("0x" + HexEncode(id), a));
    ParseLineFor(syntax, id, a);
  }

  lemma {:induction false} ParsedIsWritable(syntax: Syntax, fields: seq<string>)
    requires AllFields(fields)
    ensures var line := ParseLine(syntax, fields); line.Entry? || line.CatchAll? ==> Writable(syntax, line.action)
  {
    hide IsField;
    assert |fields| > 1 ==> IsField(fields[1]);
    assert |fields| > 2 ==> IsField(fields[2]);
  }

  /** A table some file can hold. */
  ghost predicate Storable(syntax: Syntax, t: Table) {
    && Writable(syntax, t.fallback)
    && forall key :: key in t.entries ==> 0 < |key| <= MAX_POLICY_TAG_SIZE && Writable(syntax, t.entries[key])
  }

  ghost predicate AreFields(lines: seq<seq<string>>) {
    forall k :: 0 <= k < |lines| ==> AllFields(lines[k])
  }

  lemma {:induction false} ScanIsWritable(syntax: Syntax, lines: seq<seq<string>>, key: seq<Byte>)
    requires AreFields(lines)
    ensures Writable(syntax, ScanFallback(syntax, lines))
    ensures ScanFor(syntax, lines, key).Some? ==>
      0 < |key| <= MAX_POLICY_TAG_SIZE && Writable(syntax, ScanFor(syntax, lines, key).value)
  {
    hide ParseLine, Writable, AllFields;
    if lines == [] {
      DenialIsWritable(syntax);
    } else {
      ParsedIsWritable(syntax, lines[|lines| - 1]);
      ScanIsWritable(syntax, lines[..|lines| - 1], key);
    }
  }

  lemma {:induction false} DenialIsWritable(syntax: Syntax)
    ensures Writable(syntax, DenyAction)
  {
  }

  /** One more line of text. */
  lemma {:induction false} CutStep(text: seq<string>, line: string)
    ensures Cut(text + [line]) == Cut(text) + [LineFields(line)]
  {
  }

  predicate OnLines(text: seq<string>) {
    forall k :: 0 <= k < |text| ==> '\n' !in text[k]
  }

  /** The table is the parse of the text. */
  ghost predicate IsFileOf(syntax: Syntax, text: seq<string>, t: Table) {
    OnLines(text) && Accepts(syntax, Cut(text)) && Indexes(syntax, Cut(text), t)
  }

  lemma {:induction false} AppendLine(syntax: Syntax, text: seq<string>, line: string, t: Table)
    requires IsFileOf(syntax, text, t) && '\n' !in line && !ParseLine(syntax, LineFields(line)).Bad?
    ensures IsFileOf(syntax, text + [line], Apply(t, ParseLine(syntax, LineFields(line))))
  {
    hide ParseLine, Indexes, LineFields;
    CutStep(text, line);
    var lines := Cut(text + [line]);
    assert lines[..|text|] == Cut(text) && lines[..|text| + 1] == lines;
    IndexesStep(syntax, lines, |text|, t);
  }

  lemma {:induction false} FileFor(syntax: Syntax, t: Table) returns (text: seq<string>)
    requires Storable(syntax, t)
    ensures IsFileOf(syntax, text, t)
    decreases |t.entries|
  {
    hide ParseLine, Writable, HexEncode, TextFor, IsFileOf, LineFields;
    if t.entries == map[] {
      EmptyFile(syntax);
      LineRoundTrip(syntax, [], t.fallback);
      AppendLine(syntax, [], TextFor("*", t.fallback), Table(map[], DenyAction));
      text := [] + [TextFor("*", t.fallback)];
    } else {
      var key :| key in t.entries;
      var rest := t.(entries := t.entries - {key});
      var front := FileFor(syntax, rest);
      var line := TextFor("0x" + HexEncode(key), t.entries[key]);
      LineRoundTrip(syntax, key, t.entries[key]);
      AppendLine(syntax, front, line, rest);
      text := front + [line];
      assert rest.entries[key := t.entries[key]] == t.entries;
    }
  }

  lemma {:induction false} EmptyFile(syntax: Syntax)
    ensures IsFileOf(syntax, [], Table(map[], DenyAction))
  {
    IndexesNothing(syntax);
    assert Cut([]) == [];
  }

  /**
   * A table is the parse of some text exactly when its keys have an allowed size and the server and the selector of
   * each action are fields of a line, no reserved word and, for the selector, well formed.
   */
  lemma {:induction false} TablesExactly(syntax: Syntax, t: Table)
    ensures Storable(syntax, t) <==> exists text :: IsFileOf(syntax, text, t)
  {
    hide Writable, ScanFor, ScanFallback, ParseLine, LineFields, AllFields;
    if Storable(syntax, t) {
      var text := FileFor(syntax, t);
    }
    if text :| IsFileOf(syntax, text, t) {
      var lines := Cut(text);
      forall k | 0 <= k < |lines|
        ensures AllFields(lines[k])
      {
        FieldsOfLine(text[k]);
      }
      ScanIsWritable(syntax, lines, []);
      forall key | key in t.entries
        ensures 0 < |key| <= MAX_POLICY_TAG_SIZE && Writable(syntax, t.entries[key])
      {
        ScanIsWritable(syntax, lines, key);
        assert ScanFor(syntax, lines, key) == Some(t.entries[key]);
      }
    }
  }
}
