/**
 * The application.conf reader of tui.py (inline in `main` at lines 437-460;
 * the never-called `parse_application_conf` of lines 257-294 holds the same
 * code) and the database commands built from it (lines 461-476). The regular expressions of the source are written
 * out as scanners:
 *   `NAME\s*\{(.*?)\}` with `re.search` and `re.DOTALL` finds the first block,
 *   `(\w+)\s*=\s*(\".*?\"|\S+)` with `re.match` reads one `key = value` line.
 */
module AppConf {
  import opened Text

  // ---------------------------------------------------------------------------
  // Blocks: `NAME\s*\{(.*?)\}`

  /** The body of a block named `name` that starts exactly at `i`: the name, optional
      whitespace, `{`, and everything up to the first `}`. */
  function BlockAt(content: string, name: string, i: nat): (r: Option<string>)
    ensures r.Some? ==> '}' !in r.value
  {
    if i + |name| <= |content| && content[i..i + |name|] == name then
      var j := SkipSpaces(content, i + |name|);
      if j < |content| && content[j] == '{' then
        match IndexFrom(content, j + 1, '}')
        case None => None
        case Some(e) => Some(content[j + 1..e])
      else None
    else None
  }

  /** The position `re.search` reports: the first `i` at or after `from` where a block starts. */
  function BlockFrom(content: string, name: string, from: nat): (r: Option<nat>)
    requires from <= |content|
    ensures r.Some? ==> from <= r.value <= |content| && BlockAt(content, name, r.value).Some?
    decreases |content| - from
  {
    if BlockAt(content, name, from).Some? then Some(from)
    else if from == |content| then None
    else BlockFrom(content, name, from + 1)
  }

  /** `re.search(NAME\s*\{(.*?)\}, content, re.DOTALL).group(1)`, if there is a match. */
  function FindBlock(content: string, name: string): (r: Option<string>)
    ensures r.Some? ==> '}' !in r.value
  {
    match BlockFrom(content, name, 0)
    case None => None
    case Some(i) => BlockAt(content, name, i)
  }

  /** The search is leftmost: no block starts before the one found. */
  lemma {:induction false} BlockLeftmost(content: string, name: string, from: nat, k: nat)
    requires from <= k <= |content|
    requires BlockFrom(content, name, from).None? || k < BlockFrom(content, name, from).value
    ensures BlockAt(content, name, k).None?
    decreases |content| - from
  {
    if BlockAt(content, name, from).None? && k > from {
      BlockFromStep(content, name, from);
      BlockLeftmost(content, name, from + 1, k);
    }
  }

  /** Where no block starts, the search moves on to the next position. */
  lemma BlockFromStep(content: string, name: string, from: nat)
    requires from < |content| && BlockAt(content, name, from).None?
    ensures BlockFrom(content, name, from) == BlockFrom(content, name, from + 1)
  {
  }

  /** The search reports the first position where a block starts. */
  lemma {:induction false} BlockFromFirst(content: string, name: string, from: nat, k: nat)
    requires from <= k <= |content|
    requires forall i :: from <= i < k ==> BlockAt(content, name, i).None?
    requires BlockAt(content, name, k).Some?
    ensures BlockFrom(content, name, from) == Some(k)
    decreases k - from
  {
    if from < k {
      BlockFromFirst(content, name, from + 1, k);
    }
  }

  /** In `head NAME GAP { ...`, the name stands right after `head` and the gap ends at `{`. */
  lemma NameThenBrace(head: string, name: string, gap: string, t: string)
    requires AllSpace(gap)
    ensures var content := head + name + gap + "{" + t;
            && content[|head|..|head| + |name|] == name
            && SkipSpaces(content, |head| + |name|) == |head| + |name| + |gap|
            && content[|head| + |name| + |gap|] == '{'
  {
    var content := head + name + gap + "{" + t;
    var i := |head|;
    var j := i + |name| + |gap|;
    forall k | 0 <= k < |name| ensures content[i + k] == name[k] {
    }
    SliceIs(content, i, name);
    forall k | i + |name| <= k < j ensures IsSpace(content[k]) {
      assert content[k] == gap[k - i - |name|];
    }
    SkipWhileExact(content, i + |name|, j, IsSpace);
  }

  /** In `p BODY } ...`, the first `}` after `p` closes `BODY`. */
  lemma BodyThenClose(content: string, p: string, body: string, rest: string)
    requires content == p + body + "}" + rest && '}' !in body
    ensures IndexFrom(content, |p|, '}') == Some(|p| + |body|)
    ensures content[|p|..|p| + |body|] == body
  {
    var e := |p| + |body|;
    assert content[e] == '}';
    forall k | |p| <= k < e ensures content[k] != '}' {
      assert content[k] == body[k - |p|];
    }
    IndexFromIs(content, |p|, e, '}');
    forall k | 0 <= k < |body| ensures content[|p| + k] == body[k] {
    }
    SliceIs(content, |p|, body);
  }

  /** `NAME GAP { BODY }` starting right after `head` has body `BODY`. */
  lemma BlockAtFormat(head: string, name: string, gap: string, body: string, rest: string)
    requires AllSpace(gap) && '}' !in body
    ensures BlockAt(head + name + gap + "{" + body + "}" + rest, name, |head|) == Some(body)
  {
    var q := head + name + gap + "{";
    var content := q + body + "}" + rest;
    var t := content[|q|..];
    assert content == head + name + gap + "{" + t by {
      assert content == q + t;
    }
    NameThenBrace(head, name, gap, t);
    BodyThenClose(content, q, body, rest);
  }

  /** A block is found with its body wherever it stands, provided no block starts earlier. */
  lemma BlockOfFormat(head: string, name: string, gap: string, body: string, rest: string)
    requires AllSpace(gap) && '}' !in body
    requires forall i :: 0 <= i < |head| ==> BlockAt(head + name + gap + "{" + body + "}" + rest, name, i).None?
    ensures FindBlock(head + name + gap + "{" + body + "}" + rest, name) == Some(body)
  {
    var content := head + name + gap + "{" + body + "}" + rest;
    BlockAtFormat(head, name, gap, body, rest);
    BlockFromFirst(content, name, 0, |head|);
  }

  // ---------------------------------------------------------------------------
  // Lines: `(\w+)\s*=\s*(\".*?\"|\S+)`

  /** ASCII word characters, as `\w` matches them. */
  predicate IsWordChar(c: char) {
    'a' <= c <= 'z' || 'A' <= c <= 'Z' || '0' <= c <= '9' || c == '_'
  }

  predicate IsQuote(c: char) { c == '"' }

  /** The key and the raw value matched at the start of `line`, if the pattern matches there. */
  function MatchKeyValue(line: string): (r: Option<(string, string)>)
    ensures r.Some? ==> r.value.0 != [] && forall k :: 0 <= k < |r.value.0| ==> IsWordChar(r.value.0[k])
    ensures r.Some? ==> r.value.1 != []
  {
    var a := SkipWhile(line, 0, IsWordChar);
    if a == 0 then None else MatchAfterKey(line, a)
  }

  /** `\s*=\s*` and the value, after the key `line[..a]`. */
  function MatchAfterKey(line: string, a: nat): (r: Option<(string, string)>)
    requires 0 < a <= |line|
    ensures r.Some? ==> r.value.0 == line[..a] && r.value.1 != []
  {
    var b := SkipSpaces(line, a);
    if b == |line| || line[b] != '=' then None
    else
      var c := SkipSpaces(line, b + 1);
      if c == |line| then None else Some((line[..a], RawValue(line, c)))
  }

  /** `\".*?\"|\S+` at `c`: a quoted string up to the next quote, else a run of non-whitespace. */
  function RawValue(line: string, c: nat): (raw: string)
    requires c < |line| && !IsSpace(line[c])
    ensures raw != []
  {
    if line[c] == '"' && IndexFrom(line, c + 1, '"').Some? then line[c..IndexFrom(line, c + 1, '"').value + 1]
    else line[c..TokenEnd(line, c)]
  }

  /** Lines 275-278: the key and the value with surrounding double quotes stripped. */
  function ParseKeyValue(line: string): (r: Option<(string, string)>)
    ensures r.Some? ==> var v := r.value.1; v == [] || (v[0] != '"' && v[|v| - 1] != '"')
  {
    match MatchKeyValue(line)
    case None => None
    case Some((k, raw)) => Some((k, StripBy(raw, IsQuote)))
  }

  /** The key is the longest word prefix of the line: a line that starts with a word character
      and then holds anything but whitespace or `=` does not match. */
  lemma KeyIsWordPrefix(line: string)
    requires MatchKeyValue(line).Some?
    ensures var k := MatchKeyValue(line).value.0;
            line[..|k|] == k && |k| < |line| && !IsWordChar(line[|k|])
  {
  }

  /** The pattern matched where the scanners stop: the word ends at `a`, `=` follows the
      whitespace at `b`, and the value starts after more whitespace at `c`. */
  lemma MatchAtPositions(line: string, a: nat, b: nat, c: nat)
    requires 0 < a <= b < c < |line|
    requires SkipWhile(line, 0, IsWordChar) == a
    requires SkipSpaces(line, a) == b && line[b] == '='
    requires SkipSpaces(line, b + 1) == c
    ensures MatchKeyValue(line) == Some((line[..a], RawValue(line, c)))
  {
    assert MatchKeyValue(line) == MatchAfterKey(line, a);
    AfterKeyAt(line, a, b, c);
  }

  lemma AfterKeyAt(line: string, a: nat, b: nat, c: nat)
    requires 0 < a <= b < c < |line|
    requires SkipSpaces(line, a) == b && line[b] == '='
    requires SkipSpaces(line, b + 1) == c
    ensures MatchAfterKey(line, a) == Some((line[..a], RawValue(line, c)))
  {
  }

  /** A value in quotes runs up to the next quote. */
  lemma QuotedIn(head: string, value: string, tail: string)
    requires '"' !in value
    ensures var quoted := "\"" + value + "\"";
            RawValue(head + quoted + tail, |head|) == quoted
  {
    var quoted := "\"" + value + "\"";
    QuotedAt(head + quoted + tail, head, quoted, value);
  }

  lemma QuotedAt(line: string, head: string, quoted: string, value: string)
    requires quoted == "\"" + value + "\"" && '"' !in value
    requires |head| + |quoted| <= |line| && line[|head|..|head| + |quoted|] == quoted
    ensures RawValue(line, |head|) == quoted
  {
    var c, q := |head|, |head| + 1 + |value|;
    assert forall k :: 0 <= k < |quoted| ==> line[c + k] == quoted[k];
    assert line[c] == '"' && line[q] == '"';
    forall k | c + 1 <= k < q ensures line[k] != '"' {
      assert line[k] == quoted[k - c] == value[k - c - 1];
    }
    IndexFromIs(line, c + 1, q, '"');
    SliceIs(line, c, quoted);
  }

  lemma PrefixOf(x: string, y: string)
    ensures (x + y)[..|x|] == x
  {
  }

  /** The whitespace before and after `=` in a layout, and what comes after it. */
  lemma Layout(key: string, gap1: string, gap2: string, value: string, tail: string)
    ensures var line := key + gap1 + "=" + gap2 + "\"" + value + "\"" + tail;
            && line == [] + key + (gap1 + "=" + gap2 + "\"" + value + "\"" + tail)
            && line == key + (gap1 + "=" + gap2 + "\"" + value + "\"" + tail)
            && line == key + gap1 + ("=" + gap2 + "\"" + value + "\"" + tail)
            && line == (key + gap1 + "=") + gap2 + ("\"" + value + "\"" + tail)
            && line == (key + gap1 + "=" + gap2) + ("\"" + value + "\"") + tail
  {
  }

  /** Where the scanners stop on a laid-out line: after the key, at `=`, and at the quote. */
  lemma ScanLayout(key: string, gap1: string, gap2: string, value: string, tail: string)
    requires key != [] && forall k :: 0 <= k < |key| ==> IsWordChar(key[k])
    requires AllSpace(gap1) && AllSpace(gap2)
    ensures var line := key + gap1 + "=" + gap2 + "\"" + value + "\"" + tail;
            var b := |key| + |gap1|;
            && SkipWhile(line, 0, IsWordChar) == |key|
            && SkipSpaces(line, |key|) == b && line[b] == '='
            && SkipSpaces(line, b + 1) == b + 1 + |gap2|
  {
    var afterKey := gap1 + "=" + gap2 + "\"" + value + "\"" + tail;
    var fromEq := "=" + gap2 + "\"" + value + "\"" + tail;
    var fromQuote := "\"" + value + "\"" + tail;
    Layout(key, gap1, gap2, value, tail);
    assert afterKey[0] == if gap1 == [] then '=' else gap1[0];
    SkipWhileOver([], key, afterKey, IsWordChar);
    SkipWhileOver(key, gap1, fromEq, IsSpace);
    SkipWhileOver(key + gap1 + "=", gap2, fromQuote, IsSpace);
  }

  /** On `key = "value"` the pattern matches the key and the quoted value. */
  lemma QuotedMatch(key: string, gap1: string, gap2: string, value: string, tail: string)
    requires key != [] && forall k :: 0 <= k < |key| ==> IsWordChar(key[k])
    requires AllSpace(gap1) && AllSpace(gap2)
    requires '"' !in value
    ensures MatchKeyValue(key + gap1 + "=" + gap2 + "\"" + value + "\"" + tail) == Some((key, "\"" + value + "\""))
  {
    var line := key + gap1 + "=" + gap2 + "\"" + value + "\"" + tail;
    var a, b := |key|, |key| + |gap1|;
    var c := b + 1 + |gap2|;
    ScanLayout(key, gap1, gap2, value, tail);
    MatchAtPositions(line, a, b, c);
    Layout(key, gap1, gap2, value, tail);
    PrefixOf(key, gap1 + "=" + gap2 + "\"" + value + "\"" + tail);
    var head, quoted := key + gap1 + "=" + gap2, "\"" + value + "\"";
    QuotedIn(head, value, tail);
    assert RawValue(line, c) == quoted by {
      assert line == head + quoted + tail && c == |head|;
    }
  }

  /** `key = "value"` reads back as the pair, whatever the spacing around `=`. */
  lemma QuotedRoundTrip(key: string, gap1: string, gap2: string, value: string, tail: string)
    requires key != [] && forall k :: 0 <= k < |key| ==> IsWordChar(key[k])
    requires AllSpace(gap1) && AllSpace(gap2)
    requires '"' !in value
    ensures ParseKeyValue(key + gap1 + "=" + gap2 + "\"" + value + "\"" + tail) == Some((key, value))
  {
    QuotedMatch(key, gap1, gap2, value, tail);
    StripQuotes(value);
  }

  /** Stripping the quotes of `"value"` gives `value` back when it holds no quote. */
  lemma StripQuotes(value: string)
    requires '"' !in value
    ensures StripBy("\"" + value + "\"", IsQuote) == value
  {
    var s := "\"" + value + "\"";
    if value == [] {
      SkipWhileExact(s, 0, 2, IsQuote);
      SkipBackWhileExact(s, 2, 2, 2, IsQuote);
    } else {
      assert forall k :: 1 <= k <= |value| ==> s[k] == value[k - 1];
      SkipWhileExact(s, 0, 1, IsQuote);
      SkipBackWhileExact(s, 1, |s|, |s| - 1, IsQuote);
      assert s[1..|s| - 1] == value;
    }
  }

  /** `re.match` fails unless, after the key and optional whitespace, `=` follows, and a value
      follows it after more optional whitespace. */
  lemma MatchNeedsEquals(line: string)
    requires MatchKeyValue(line).Some?
    ensures var a := SkipWhile(line, 0, IsWordChar);
            var b := SkipSpaces(line, a);
            && 0 < a && b < |line| && line[b] == '='
            && SkipSpaces(line, b + 1) < |line|
  {
    var a := SkipWhile(line, 0, IsWordChar);
    assert a != 0 && MatchKeyValue(line) == MatchAfterKey(line, a);
  }

  /** `\S+`: a value that does not open with a quote is the run of non-whitespace there. */
  lemma RawValueToken(head: string, token: string, tail: string)
    requires token != [] && token[0] != '"' && forall k :: 0 <= k < |token| ==> !IsSpace(token[k])
    requires tail == [] || IsSpace(tail[0])
    ensures RawValue(head + token + tail, |head|) == token
  {
    var line := head + token + tail;
    var c, e := |head|, |head| + |token|;
    forall k | c <= k < e ensures NotSpace(line[k]) {
      assert line[k] == token[k - c];
    }
    if tail != [] {
      assert line[e] == tail[0];
    }
    SkipWhileExact(line, c, e, NotSpace);
    assert line[c] == token[0];
    forall k | 0 <= k < |token| ensures line[c + k] == token[k] {
    }
    SliceIs(line, c, token);
  }

  /** A quote that is never closed on the line falls back to `\S+`: the value is the run of
      non-whitespace, opening quote included. */
  lemma RawValueUnclosed(head: string, token: string, tail: string)
    requires token != [] && token[0] == '"' && forall k :: 0 <= k < |token| ==> !IsSpace(token[k])
    requires '"' !in token[1..] && '"' !in tail
    requires tail == [] || IsSpace(tail[0])
    ensures RawValue(head + token + tail, |head|) == token
  {
    var line := head + token + tail;
    var c, e := |head|, |head| + |token|;
    forall k | c <= k < e ensures NotSpace(line[k]) {
      assert line[k] == token[k - c];
    }
    if tail != [] {
      assert line[e] == tail[0];
    }
    SkipWhileExact(line, c, e, NotSpace);
    forall k | c + 1 <= k < |line| ensures line[k] != '"' {
      if k < e {
        assert line[k] == token[1..][k - c - 1];
      } else {
        assert line[k] == tail[k - e];
      }
    }
    assert IndexFrom(line, c + 1, '"').None?;
    forall k | 0 <= k < |token| ensures line[c + k] == token[k] {
    }
    SliceIs(line, c, token);
  }

  /** On `key gap1 = gap2 token tail`, the key scan stops right after the key. */
  lemma ScanKey(line: string, key: string, gap1: string, gap2: string, token: string, tail: string)
    requires line == key + gap1 + "=" + gap2 + token + tail
    requires forall k :: 0 <= k < |key| ==> IsWordChar(key[k])
    requires AllSpace(gap1)
    ensures SkipWhile(line, 0, IsWordChar) == |key| && line[..|key|] == key
  {
    var a := |key|;
    forall k | 0 <= k < a ensures line[k] == key[k] {
    }
    SliceIs(line, 0, key);
    if gap1 != [] {
      assert line[a] == gap1[0];
    } else {
      assert line[a] == '=';
    }
    SkipWhileExact(line, 0, a, IsWordChar);
  }

  /** On `key gap1 = gap2 token tail`, whitespace after the key ends at `=`, and whitespace
      after `=` ends at the token. */
  lemma ScanGaps(line: string, key: string, gap1: string, gap2: string, token: string, tail: string)
    requires line == key + gap1 + "=" + gap2 + token + tail
    requires AllSpace(gap1) && AllSpace(gap2)
    requires token != [] && !IsSpace(token[0])
    ensures var b := |key| + |gap1|;
            && SkipSpaces(line, |key|) == b && line[b] == '='
            && SkipSpaces(line, b + 1) == b + 1 + |gap2|
  {
    var a, b := |key|, |key| + |gap1|;
    var c := b + 1 + |gap2|;
    forall k | a <= k < b ensures IsSpace(line[k]) {
      assert line[k] == gap1[k - a];
    }
    assert line[b] == '=';
    SkipWhileExact(line, a, b, IsSpace);
    forall k | b + 1 <= k < c ensures IsSpace(line[k]) {
      assert line[k] == gap2[k - b - 1];
    }
    assert line[c] == token[0];
    SkipWhileExact(line, b + 1, c, IsSpace);
  }

  /** On `key = token` the pattern matches the key and the token, whatever the spacing and
      whatever follows after whitespace. */
  lemma TokenMatch(key: string, gap1: string, gap2: string, token: string, tail: string)
    requires key != [] && forall k :: 0 <= k < |key| ==> IsWordChar(key[k])
    requires AllSpace(gap1) && AllSpace(gap2)
    requires token != [] && token[0] != '"' && forall k :: 0 <= k < |token| ==> !IsSpace(token[k])
    requires tail == [] || IsSpace(tail[0])
    ensures MatchKeyValue(key + gap1 + "=" + gap2 + token + tail) == Some((key, token))
  {
    var head := key + gap1 + "=" + gap2;
    var line := head + token + tail;
    var a, b, c := |key|, |key| + |gap1|, |head|;
    assert line[..a] == key && MatchKeyValue(line) == Some((line[..a], RawValue(line, c))) by {
      ScanKey(line, key, gap1, gap2, token, tail);
      ScanGaps(line, key, gap1, gap2, token, tail);
      MatchAtPositions(line, a, b, c);
    }
    assert RawValue(line, c) == token by {
      RawValueToken(head, token, tail);
    }
  }

  /** `key = token` reads back as the key and the token with any quotes at its ends stripped. */
  lemma TokenRoundTrip(key: string, gap1: string, gap2: string, token: string, tail: string)
    requires key != [] && forall k :: 0 <= k < |key| ==> IsWordChar(key[k])
    requires AllSpace(gap1) && AllSpace(gap2)
    requires token != [] && token[0] != '"' && forall k :: 0 <= k < |token| ==> !IsSpace(token[k])
    requires tail == [] || IsSpace(tail[0])
    ensures ParseKeyValue(key + gap1 + "=" + gap2 + token + tail) == Some((key, StripBy(token, IsQuote)))
  {
    TokenMatch(key, gap1, gap2, token, tail);
  }

  /** Lines 273-274: the stripped line, unless it is empty or a comment. */
  function LineEntry(rawLine: string): Option<(string, string)> {
    var line := Strip(rawLine);
    if line == [] || line[0] == '#' then None else ParseKeyValue(line)
  }

  /** Line 274: a line of whitespace gives nothing. */
  lemma BlankLineSkipped(line: string)
    requires AllSpace(line)
    ensures LineEntry(line) == None
  {
    StripBlank(line);
  }

  /** Line 274: a comment, `#` after any indentation, gives nothing whatever follows it. */
  lemma CommentSkipped(ws: string, t: string)
    requires AllSpace(ws)
    ensures LineEntry(ws + "#" + t) == None
  {
    StripStartsWith(ws, '#', t);
  }

  /** Lines 273-278: an indented `key = "value"` line, with any whitespace around it, gives the
      key and the value without quotes. */
  lemma QuotedLine(ws1: string, key: string, gap1: string, gap2: string, value: string, ws2: string)
    requires key != [] && forall k :: 0 <= k < |key| ==> IsWordChar(key[k])
    requires AllSpace(ws1) && AllSpace(gap1) && AllSpace(gap2) && AllSpace(ws2)
    requires '"' !in value
    ensures LineEntry(ws1 + (key + gap1 + "=" + gap2 + "\"" + value + "\"") + ws2) == Some((key, value))
  {
    var x := key + gap1 + "=" + gap2 + "\"" + value + "\"";
    assert x[0] == key[0];
    assert x[|x| - 1] == '"';
    StripAround(ws1, x, ws2);
    QuotedRoundTrip(key, gap1, gap2, value, "");
    assert x + "" == x;
  }

  /** What each line of a block contributes. */
  function EntriesOf(lines: seq<string>): (es: seq<Option<(string, string)>>)
    ensures |es| == |lines| && forall i :: 0 <= i < |lines| ==> es[i] == LineEntry(lines[i])
  {
    seq(|lines|, i requires 0 <= i < |lines| => LineEntry(lines[i]))
  }

  /** Lines 276-279: the entries assigned into the dictionary one after another. */
  function Assign(entries: seq<Option<(string, string)>>): map<string, string>
    decreases |entries|
  {
    if entries == [] then map[]
    else
      var m := Assign(entries[..|entries| - 1]);
      var e := entries[|entries| - 1];
      if e.Some? then m[e.value.0 := e.value.1] else m
  }

  /** Entry `i` gives a value for `key`. */
  ghost predicate Assigns(entries: seq<Option<(string, string)>>, i: int, key: string) {
    0 <= i < |entries| && entries[i].Some? && entries[i].value.0 == key
  }

  /** Exactly the keys some entry assigns are in the dictionary. */
  lemma {:induction false} AssignedKeys(entries: seq<Option<(string, string)>>, key: string)
    ensures key in Assign(entries) <==> exists i :: Assigns(entries, i, key)
    decreases |entries|
  {
    if entries != [] {
      var init := entries[..|entries| - 1];
      var last := |entries| - 1;
      AssignedKeys(init, key);
      if key in Assign(entries) {
        if Assigns(entries, last, key) {
        } else {
          var i :| Assigns(init, i, key);
          assert Assigns(entries, i, key);
        }
      }
      if exists i :: Assigns(entries, i, key) {
        var i :| Assigns(entries, i, key);
        if i < last {
          assert Assigns(init, i, key);
        }
      }
    }
  }

  /** A later entry for the same key overwrites an earlier one: the value kept is that of the
      last entry for the key. */
  lemma {:induction false} LastAssignmentWins(before: seq<Option<(string, string)>>, key: string, value: string,
                                               after: seq<Option<(string, string)>>)
    requires forall j :: 0 <= j < |after| ==> !Assigns(after, j, key)
    ensures var m := Assign(before + [Some((key, value))] + after);
            key in m && m[key] == value
    decreases |after|
  {
    var entries := before + [Some((key, value))] + after;
    if after == [] {
      assert entries[..|entries| - 1] == before;
    } else {
      var init := after[..|after| - 1];
      forall j | 0 <= j < |init| ensures !Assigns(init, j, key) {
        assert init[j] == after[j];
        assert !Assigns(after, j, key);
      }
      LastAssignmentWins(before, key, value, init);
      assert entries[..|entries| - 1] == before + [Some((key, value))] + init;
      assert entries[|entries| - 1] == after[|after| - 1];
      assert !Assigns(after, |after| - 1, key);
    }
  }

  /** Lines 272-279: the dictionary a block gives. */
  function Assignments(lines: seq<string>): map<string, string> {
    Assign(EntriesOf(lines))
  }

  /** The dictionary read from a block, when the block was found (`if rep_match:`). */
  function BlockMap(block: Option<string>): map<string, string> {
    match block
    case None => map[]
    case Some(b) => Assignments(SplitLines(b))
  }

  /** The `for line in block.splitlines()` loop of lines 272-279. */
  method ParseBlock(block: string) returns (m: map<string, string>)
    ensures m == Assignments(SplitLines(block))
  {
    var lines := SplitLines(block);
    ghost var entries := EntriesOf(lines);
    m := map[];
    for i := 0 to |lines|
      invariant m == Assign(entries[..i])
    {
      assert entries[..i + 1][..i] == entries[..i];
      var line := Strip(lines[i]);
      var kv: Option<(string, string)> := None;
      if line != [] && line[0] != '#' {
        kv := ParseKeyValue(line);
      }
      assert kv == entries[i];
      if kv.Some? {
        m := m[kv.value.0 := kv.value.1];
      }
    }
    assert entries[..|lines|] == entries;
  }

  /** Lines 437-460 after the file is read: the `reporting` and the `cassandra` dictionaries. */
  method ParseApplicationConf(content: string) returns (reporting: map<string, string>, cassandra: map<string, string>)
    ensures reporting == BlockMap(FindBlock(content, "reporting"))
    ensures cassandra == BlockMap(FindBlock(content, "cassandra"))
  {
    reporting := map[];
    cassandra := map[];
    var rep := FindBlock(content, "reporting");
    if rep.Some? {
      reporting := ParseBlock(rep.value);
    }
    var cass := FindBlock(content, "cassandra");
    if cass.Some? {
      cassandra := ParseBlock(cass.value);
    }
  }

  // ---------------------------------------------------------------------------
  // Connection commands (lines 461-475)

  /** `d.get(key, default)`. */
  function Get(d: map<string, string>, key: string, default: string): string {
    if key in d then d[key] else default
  }

  const NoMariaDb := "Not enough data to build MariaDB command."
  const NoCassandra := "Not enough data to build Cassandra command."

  /** Lines 461 and 463-468. */
  function MariaDbCommand(reporting: map<string, string>): string {
    if |reporting| == 0 then NoMariaDb
    else "mysql -h " + Get(reporting, "host", "localhost") + " -P " + Get(reporting, "port", "3306")
         + " -u " + Get(reporting, "username", "root") + " -p" + Get(reporting, "password", "")
  }

  /** Lines 462 and 469-474. */
  function CassandraCommand(cassandra: map<string, string>): string {
    if |cassandra| == 0 then NoCassandra
    else "cqlsh " + Get(cassandra, "host", "localhost") + " " + Get(cassandra, "port", "9042")
         + " -u " + Get(cassandra, "username", "") + " -p " + Get(cassandra, "password", "")
  }

  const MariaDbTitle := "MariaDB Connection Command:"
  const CassandraTitle := "Cassandra Connection Command:"

  /** Line 475: the text the viewer shows. */
  function ConnectionReport(reporting: map<string, string>, cassandra: map<string, string>): string {
    MariaDbTitle + "\n" + MariaDbCommand(reporting) + "\n" + "\n"
    + CassandraTitle + "\n" + CassandraCommand(cassandra)
  }

  /** Lines 428-475: the text shown for the MariaDB action, given the file's contents when
      `find_application_conf` found one. */
  function DatabaseOutput(conf: Option<string>, namespace: string): string {
    match conf
    case None => "application.conf not found under secrets for namespace '" + namespace + "'."
    case Some(content) =>
      ConnectionReport(BlockMap(FindBlock(content, "reporting")), BlockMap(FindBlock(content, "cassandra")))
  }

  /** The viewer splits the report into its lines (line 205): the MariaDB heading, the MariaDB
      command, an empty line, the Cassandra heading and the Cassandra command. */
  lemma ReportLines(reporting: map<string, string>, cassandra: map<string, string>)
    requires NoBreak(MariaDbCommand(reporting)) && NoBreak(CassandraCommand(cassandra))
    ensures SplitLines(ConnectionReport(reporting, cassandra))
            == ["MariaDB Connection Command:", MariaDbCommand(reporting), "",
                "Cassandra Connection Command:", CassandraCommand(cassandra)]
  {
    var c := CassandraCommand(cassandra);
    assert c != [] by {
      CassandraPlaceholder(cassandra);
      if |cassandra| > 0 { assert c[0] == 'c'; }
    }
    ReportTextLines(MariaDbCommand(reporting), c);
  }

  lemma ReportTextLines(m: string, c: string)
    requires NoBreak(m) && NoBreak(c) && c != []
    ensures SplitLines(MariaDbTitle + "\n" + m + "\n" + "\n" + CassandraTitle + "\n" + c)
            == [MariaDbTitle, m, "", CassandraTitle, c]
  {
    TitlesHaveNoBreak();
    SplitLinesOne(c);
    var r4 := CassandraTitle + "\n" + c;
    SplitLinesCons(CassandraTitle, "\n", c);
    var r3 := "" + "\n" + r4;
    SplitLinesCons("", "\n", r4);
    var r2 := m + "\n" + r3;
    SplitLinesCons(m, "\n", r3);
    SplitLinesCons(MariaDbTitle, "\n", r2);
    ReportSpelled(MariaDbTitle, m, CassandraTitle, c);
    FiveLines(MariaDbTitle, m, "", CassandraTitle, c);
  }

  lemma TitlesHaveNoBreak()
    ensures NoBreak(MariaDbTitle) && NoBreak(CassandraTitle)
  {
    MariaDbHeading();
    CassandraHeading();
  }

  lemma MariaDbHeading()
    ensures NoBreak("MariaDB Connection Command:")
  {
  }

  lemma CassandraHeading()
    ensures NoBreak("Cassandra Connection Command:")
  {
  }

  lemma ReportSpelled(h1: string, m: string, h2: string, c: string)
    ensures h1 + "\n" + (m + "\n" + ("" + "\n" + (h2 + "\n" + c))) == h1 + "\n" + m + "\n" + "\n" + h2 + "\n" + c
  {
    assert "" + "\n" == "\n";
  }

  lemma FiveLines(a: string, b: string, c: string, d: string, e: string)
    ensures [a] + ([b] + ([c] + ([d] + [e]))) == [a, b, c, d, e]
  {
  }

  /** Without a configuration file the viewer shows one line naming the namespace (line 430). */
  lemma NotFoundLine(namespace: string)
    requires NoBreak(namespace)
    ensures SplitLines(DatabaseOutput(None, namespace))
            == ["application.conf not found under secrets for namespace '" + namespace + "'."]
  {
    var opening, closing := "application.conf not found under secrets for namespace '", "'.";
    NotFoundParts();
    NoBreakAppend(opening, namespace);
    NoBreakAppend(opening + namespace, closing);
    SplitLinesOne(DatabaseOutput(None, namespace));
  }

  lemma NotFoundParts()
    ensures NoBreak("application.conf not found under secrets for namespace '") && NoBreak("'.")
  {
    NotFoundStart();
    NotFoundMiddle();
    NoBreakAppend("application.conf not found", " under secrets for namespace '");
    NotFoundJoin();
  }

  lemma NotFoundStart()
    ensures NoBreak("application.conf not found")
  {
  }

  lemma NotFoundMiddle()
    ensures NoBreak(" under secrets for namespace '")
  {
  }

  lemma NotFoundJoin()
    ensures "application.conf not found" + " under secrets for namespace '"
         == "application.conf not found under secrets for namespace '"
  {
  }

  lemma NoBreakAppend(a: string, b: string)
    requires NoBreak(a) && NoBreak(b)
    ensures NoBreak(a + b)
  {
    forall k | 0 <= k < |a + b| ensures !IsBreak((a + b)[k]) {
      if k >= |a| { assert (a + b)[k] == b[k - |a|]; }
    }
  }

  predicate NoSpace(s: string) { ' ' !in s }

  /** Joining words that start at `k` peels off the first one. */
  lemma JoinFrom(ws: seq<string>, k: nat)
    requires k + 1 < |ws|
    ensures Join(ws[k..], ' ') == ws[k] + " " + Join(ws[k + 1..], ' ')
  {
    assert ws[k..][1..] == ws[k + 1..];
  }

  /** Joined words start with the first letter of the first word. */
  lemma JoinHead(ws: seq<string>, sep: char)
    requires ws != [] && ws[0] != []
    ensures Join(ws, sep) != [] && Join(ws, sep)[0] == ws[0][0]
  {
  }

  /** Seven words joined by spaces, written out. */
  lemma Join7(ws: seq<string>)
    requires |ws| == 7
    ensures Join(ws, ' ')
            == ws[0] + " " + (ws[1] + " " + (ws[2] + " " + (ws[3] + " " + (ws[4] + " " + (ws[5] + " " + ws[6])))))
  {
    assert Join(ws[6..], ' ') == ws[6];
    JoinFrom(ws, 5);
    JoinFrom(ws, 4);
    JoinFrom(ws, 3);
    JoinFrom(ws, 2);
    JoinFrom(ws, 1);
    JoinFrom(ws, 0);
    assert ws[0..] == ws;
  }

  /** Eight words joined by spaces, written out. */
  lemma Join8(ws: seq<string>)
    requires |ws| == 8
    ensures Join(ws, ' ')
            == ws[0] + " " + (ws[1] + " " + (ws[2] + " " + (ws[3] + " " + (ws[4] + " " + (ws[5] + " " + (ws[6] + " " + ws[7]))))))
  {
    Join7(ws[1..]);
    JoinFrom(ws, 0);
    assert ws[0..] == ws;
  }

  lemma MariaDbJoin(host: string, port: string, user: string, password: string)
    ensures Join(["mysql", "-h", host, "-P", port, "-u", user, "-p" + password], ' ')
            == "mysql -h " + host + " -P " + port + " -u " + user + " -p" + password
  {
    Join8(["mysql", "-h", host, "-P", port, "-u", user, "-p" + password]);
    MariaDbSpelled(host, port, user, password);
  }

  lemma MariaDbSpelled(host: string, port: string, user: string, password: string)
    ensures "mysql" + " " + ("-h" + " " + (host + " " + ("-P" + " " + (port + " " + ("-u" + " " + (user + " " + ("-p" + password)))))))
         == "mysql -h " + host + " -P " + port + " -u " + user + " -p" + password
  {
  }

  lemma CassandraJoin(host: string, port: string, user: string, password: string)
    ensures Join(["cqlsh", host, port, "-u", user, "-p", password], ' ')
            == "cqlsh " + host + " " + port + " -u " + user + " -p " + password
  {
    Join7(["cqlsh", host, port, "-u", user, "-p", password]);
    CassandraSpelled(host, port, user, password);
  }

  lemma CassandraSpelled(host: string, port: string, user: string, password: string)
    ensures "cqlsh" + " " + (host + " " + (port + " " + ("-u" + " " + (user + " " + ("-p" + " " + password)))))
         == "cqlsh " + host + " " + port + " -u " + user + " -p " + password
  {
  }

  /** The value of `key` in `d`, if any, holds no space. */
  predicate SpacelessAt(d: map<string, string>, key: string) {
    key in d ==> NoSpace(d[key])
  }

  /** The MariaDB command is the placeholder exactly when the reporting block gave nothing. */
  lemma MariaDbPlaceholder(reporting: map<string, string>)
    ensures MariaDbCommand(reporting) == NoMariaDb <==> |reporting| == 0
  {
    if |reporting| > 0 {
      var parts := ["mysql", "-h", Get(reporting, "host", "localhost"), "-P", Get(reporting, "port", "3306"),
                    "-u", Get(reporting, "username", "root"), "-p" + Get(reporting, "password", "")];
      MariaDbJoin(Get(reporting, "host", "localhost"), Get(reporting, "port", "3306"),
                  Get(reporting, "username", "root"), Get(reporting, "password", ""));
      JoinHead(parts, ' ');
      assert NoMariaDb[0] == 'N';
    }
  }

  /** The Cassandra command is the placeholder exactly when the cassandra block gave nothing. */
  lemma CassandraPlaceholder(cassandra: map<string, string>)
    ensures CassandraCommand(cassandra) == NoCassandra <==> |cassandra| == 0
  {
    if |cassandra| > 0 {
      var parts := ["cqlsh", Get(cassandra, "host", "localhost"), Get(cassandra, "port", "9042"),
                    "-u", Get(cassandra, "username", ""), "-p", Get(cassandra, "password", "")];
      CassandraJoin(Get(cassandra, "host", "localhost"), Get(cassandra, "port", "9042"),
                    Get(cassandra, "username", ""), Get(cassandra, "password", ""));
      JoinHead(parts, ' ');
      assert NoCassandra[0] == 'N';
    }
  }

  /** `mysql -h HOST -P PORT -u USER -pPASSWORD`, cut at spaces, gives its words back. */
  lemma MariaDbSplit(host: string, port: string, user: string, password: string)
    requires NoSpace(host) && NoSpace(port) && NoSpace(user) && NoSpace(password)
    ensures Split("mysql -h " + host + " -P " + port + " -u " + user + " -p" + password, ' ')
            == ["mysql", "-h", host, "-P", port, "-u", user, "-p" + password]
  {
    var parts := ["mysql", "-h", host, "-P", port, "-u", user, "-p" + password];
    assert Split(Join(parts, ' '), ' ') == parts by {
      forall k | 0 <= k < |parts| ensures ' ' !in parts[k] {
        if k == 7 {
          assert parts[k] == "-p" + password;
        }
      }
      SplitJoin(parts, ' ');
    }
    MariaDbJoin(host, port, user, password);
  }

  /** `cqlsh HOST PORT -u USER -p PASSWORD`, cut at spaces, gives its words back. */
  lemma CassandraSplit(host: string, port: string, user: string, password: string)
    requires NoSpace(host) && NoSpace(port) && NoSpace(user) && NoSpace(password)
    ensures Split("cqlsh " + host + " " + port + " -u " + user + " -p " + password, ' ')
            == ["cqlsh", host, port, "-u", user, "-p", password]
  {
    var parts := ["cqlsh", host, port, "-u", user, "-p", password];
    assert Split(Join(parts, ' '), ' ') == parts by {
      forall k | 0 <= k < |parts| ensures ' ' !in parts[k] {
      }
      SplitJoin(parts, ' ');
    }
    CassandraJoin(host, port, user, password);
  }

  /** The MariaDB command is the placeholder exactly when the reporting block gave nothing;
      otherwise, cut at spaces, it is `mysql -h HOST -P PORT -u USER -pPASSWORD` with each missing
      setting replaced by its default, provided the four settings it reads hold no space. */
  lemma MariaDbWords(reporting: map<string, string>)
    requires SpacelessAt(reporting, "host") && SpacelessAt(reporting, "port")
    requires SpacelessAt(reporting, "username") && SpacelessAt(reporting, "password")
    ensures MariaDbCommand(reporting) == NoMariaDb <==> |reporting| == 0
    ensures |reporting| > 0 ==>
              Split(MariaDbCommand(reporting), ' ')
              == ["mysql", "-h", Get(reporting, "host", "localhost"), "-P", Get(reporting, "port", "3306"),
                  "-u", Get(reporting, "username", "root"), "-p" + Get(reporting, "password", "")]
  {
    MariaDbPlaceholder(reporting);
    if |reporting| > 0 {
      assert NoSpace("localhost") && NoSpace("3306") && NoSpace("root") && NoSpace("");
      MariaDbSplit(Get(reporting, "host", "localhost"), Get(reporting, "port", "3306"),
                   Get(reporting, "username", "root"), Get(reporting, "password", ""));
    }
  }

  /** The Cassandra command is the placeholder exactly when the cassandra block gave nothing;
      otherwise, cut at spaces, it is `cqlsh HOST PORT -u USER -p PASSWORD` with defaults,
      provided the four settings it reads hold no space. */
  lemma CassandraWords(cassandra: map<string, string>)
    requires SpacelessAt(cassandra, "host") && SpacelessAt(cassandra, "port")
    requires SpacelessAt(cassandra, "username") && SpacelessAt(cassandra, "password")
    ensures CassandraCommand(cassandra) == NoCassandra <==> |cassandra| == 0
    ensures |cassandra| > 0 ==>
              Split(CassandraCommand(cassandra), ' ')
              == ["cqlsh", Get(cassandra, "host", "localhost"), Get(cassandra, "port", "9042"),
                  "-u", Get(cassandra, "username", ""), "-p", Get(cassandra, "password", "")]
  {
    CassandraPlaceholder(cassandra);
    if |cassandra| > 0 {
      assert NoSpace("localhost") && NoSpace("9042") && NoSpace("");
      CassandraSplit(Get(cassandra, "host", "localhost"), Get(cassandra, "port", "9042"),
                     Get(cassandra, "username", ""), Get(cassandra, "password", ""));
    }
  }
}
