/** Cutting a line of a configuration file into its fields. */
module ConfigLines {

  /** White space as Unicode has it, which is where the library cuts. */
  predicate IsSpace(c: char) {
    var n := c as int;
    || 9 <= n <= 13 || n == 32 || n == 0x85 || n == 0xA0 || n == 0x1680 || 0x2000 <= n <= 0x200A
    || n == 0x2028 || n == 0x2029 || n == 0x202F || n == 0x205F || n == 0x3000
  }

  predicate IsWord(s: string) {
    s != "" && forall k :: 0 <= k < |s| ==> !IsSpace(s[k])
  }

  predicate IsComment(word: string) {
    word != "" && word[0] == '#'
  }

  /** What a field of a line can be. */
  predicate IsField(s: string) {
    IsWord(s) && !IsComment(s)
  }

  /** Where the word at the front of the line ends. */
  function WordEnd(line: string): (n: nat)
    ensures n <= |line| && (forall k :: 0 <= k < n ==> !IsSpace(line[k])) && (n < |line| ==> IsSpace(line[n]))
  {
    if line == "" || IsSpace(line[0]) then 0 else 1 + WordEnd(line[1..])
  }

  /** The words between white space. */
  function Words(line: string): seq<string>
    decreases |line|
  {
    if line == "" then []
    else if IsSpace(line[0]) then Words(line[1..])
    else [line[..WordEnd(line)]] + Words(line[WordEnd(line)..])
  }

  /** The words before the first that begins a comment. */
  function BeforeComment(words: seq<string>): seq<string> {
    if words == [] || IsComment(words[0]) then [] else [words[0]] + BeforeComment(words[1..])
  }

  function LineFields(line: string): seq<string> {
    BeforeComment(Words(line))
  }

  lemma {:induction false} BeforeCommentAt(words: seq<string>, k: nat)
    requires k <= |words| && forall j :: 0 <= j < k ==> !IsComment(words[j])
    requires k < |words| ==> IsComment(words[k])
    ensures BeforeComment(words) == words[..k]
  {
    if k > 0 {
      BeforeCommentAt(words[1..], k - 1);
      assert words[..k] == [words[0]] + words[1..][..k - 1];
    }
  }

  method Fields(line: string) returns (fields: seq<string>)
    ensures fields == LineFields(line)
  {
    fields := Words(line);
    for i := 0 to |fields|
      invariant forall j :: 0 <= j < i ==> !IsComment(fields[j])
    {
      if IsComment(fields[i]) {
        BeforeCommentAt(fields, i);
        return fields[..i];
      }
    }
    BeforeCommentAt(fields, |fields|);
    assert fields[..|fields|] == fields;
  }

  lemma {:induction false} WordsAreWords(line: string)
    ensures forall w :: w in Words(line) ==> IsWord(w)
    decreases |line|
  {
    if line != "" {
      if IsSpace(line[0]) {
        WordsAreWords(line[1..]);
      } else {
        WordsAreWords(line[WordEnd(line)..]);
      }
    }
  }

  lemma {:induction false} BeforeCommentMembers(words: seq<string>)
    ensures forall w :: w in BeforeComment(words) ==> w in words && !IsComment(w)
  {
    if words != [] && !IsComment(words[0]) {
      BeforeCommentMembers(words[1..]);
    }
  }

  /** What is left of a line without its white space. */
  function Unspaced(line: string): string {
    if line == "" then "" else (if IsSpace(line[0]) then "" else [line[0]]) + Unspaced(line[1..])
  }

  /** How many characters begin a word: those that are not white space and do not follow one that is not. */
  function Beginnings(line: string, inWord: bool): nat {
    if line == "" then 0
    else if IsSpace(line[0]) then Beginnings(line[1..], false)
    else (if inWord then 0 else 1) + Beginnings(line[1..], true)
  }

  function Concat(words: seq<string>): string {
    if words == [] then "" else words[0] + Concat(words[1..])
  }

  lemma {:induction false} AcrossWord(line: string)
    ensures Unspaced(line) == line[..WordEnd(line)] + Unspaced(line[WordEnd(line)..])
    ensures Beginnings(line, true) == Beginnings(line[WordEnd(line)..], false)
  {
    if line != "" && !IsSpace(line[0]) {
      var n := WordEnd(line);
      AcrossWord(line[1..]);
      assert line[1..][n - 1..] == line[n..];
      assert line[..n] == [line[0]] + line[1..][..n - 1];
    }
  }

  /** The words hold every character that is not white space, in order, and there is one for every beginning. */
  lemma {:induction false} WordsExactly(line: string)
    ensures Concat(Words(line)) == Unspaced(line) && |Words(line)| == Beginnings(line, false)
    decreases |line|
  {
    if line != "" {
      if IsSpace(line[0]) {
        WordsExactly(line[1..]);
      } else {
        var n := WordEnd(line);
        AcrossWord(line);
        WordsExactly(line[n..]);
        AcrossWord(line[1..]);
        assert line[1..][n - 1..] == line[n..];
        assert Words(line)[1..] == Words(line[n..]);
      }
    }
  }

  lemma {:induction false} SpacesAndOthers(c: char)
    ensures c == ' ' || '\t' <= c <= '\r' ==> IsSpace(c)
    ensures '!' <= c <= '~' ==> !IsSpace(c)
  {
  }

  ghost predicate AllFields(fields: seq<string>) {
    forall k :: 0 <= k < |fields| ==> IsField(fields[k])
  }

  /** The fields, with a blank after each. */
  function Joined(fields: seq<string>): string {
    if fields == [] then "" else fields[0] + " " + Joined(fields[1..])
  }

  lemma {:induction false} WordEndAt(word: string, rest: string)
    requires IsWord(word)
    ensures WordEnd(word + " " + rest) == |word|
  {
    var line := word + " " + rest;
    var n := WordEnd(line);
    assert line[|word|] == ' ' && IsSpace(' ');
    assert forall k :: 0 <= k < |word| ==> line[k] == word[k];
  }

  lemma {:induction false} WordsOfJoined(fields: seq<string>)
    requires AllFields(fields)
    ensures Words(Joined(fields)) == fields
    decreases |fields|
  {
    if fields != [] {
      var word, rest := fields[0], Joined(fields[1..]);
      var line := word + " " + rest;
      assert IsField(fields[0]);
      WordEndAt(word, rest);
      assert line[0] == word[0] && line[..|word|] == word;
      assert line[|word|..] == " " + rest && (" " + rest)[1..] == rest && IsSpace((" " + rest)[0]);
      assert Words(line[|word|..]) == Words(rest);
      assert AllFields(fields[1..]);
      WordsOfJoined(fields[1..]);
    }
  }

  lemma {:induction false} JoinedStaysOnLine(fields: seq<string>)
    requires AllFields(fields)
    ensures '\n' !in Joined(fields)
  {
    if fields != [] {
      assert IsField(fields[0]);
      assert IsSpace('\n');
      assert AllFields(fields[1..]);
      JoinedStaysOnLine(fields[1..]);
    }
  }

  /** Writing fields on a line and cutting the line gives them back. */
  lemma {:induction false} JoinedRoundTrip(fields: seq<string>)
    requires AllFields(fields)
    ensures LineFields(Joined(fields)) == fields && '\n' !in Joined(fields)
  {
    WordsOfJoined(fields);
    JoinedStaysOnLine(fields);
    forall j | 0 <= j < |fields|
      ensures !IsComment(fields[j])
    {
      assert IsField(fields[j]);
    }
    BeforeCommentAt(fields, |fields|);
    assert fields[..|fields|] == fields;
  }

  /** A list of strings is what some line is cut into exactly when each of them can be a field. */
  lemma {:induction false} FieldsExactly(fields: seq<string>)
    ensures AllFields(fields) <==> exists line :: LineFields(line) == fields && '\n' !in line
  {
    if AllFields(fields) {
      JoinedRoundTrip(fields);
    }
    if line :| LineFields(line) == fields && '\n' !in line {
      FieldsOfLine(line);
    }
  }

  lemma {:induction false} FieldsOfLine(line: string)
    ensures AllFields(LineFields(line))
  {
    WordsAreWords(line);
    BeforeCommentMembers(Words(line));
    forall k | 0 <= k < |LineFields(line)|
      ensures IsField(LineFields(line)[k])
    {
      assert LineFields(line)[k] in LineFields(line);
    }
  }
}
