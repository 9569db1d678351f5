/** What the texts of the settings say, character by character: the lines of a settings file and the words
    of the kernel command line (src/installer/helper.c:298-453). */
module KvText {

  import opened Sequences
  import opened KvList
  import opened KvFile
  import opened KvLine

  // ---- writing ----

  /** A written file: a line for each item, with quotes around a value that has a blank. */
  lemma PrintedFile(items: seq<Item>)
    ensures Print(items)
         == if items == [] then ""
            else (if exists i :: 0 <= i < |items[0].value| && items[0].value[i] == ' '
                  then items[0].key + "='" + items[0].value + "'\n" else items[0].key + "=" + items[0].value + "\n")
                 + Print(items[1..])
  {
    if items != [] {
      var k, v := items[0].key, items[0].value;
      SumOfFour(k, "=", "'" + v + "'", "\n");
      assert k + "=" + ("'" + v + "'") == k + "='" + v + "'";
      assert k + "='" + v + "'" + "\n" == k + "='" + v + "'\n";
    }
  }

  lemma SumOfFour(a: string, b: string, c: string, d: string)
    ensures a + b + c + d == a + b + (c + d)
  {
  }

  // ---- reading ----

  predicate Lacks(s: string, c: char) {
    forall i :: 0 <= i < |s| ==> s[i] != c
  }

  lemma {:induction false} ShortChunk(line: string, rest: string, max: nat)
    requires Lacks(line, '\n') && |line| < max
    ensures ChunkLength(line + ("\n" + rest), max) == |line| + 1
    decreases max
  {
    var text := line + ("\n" + rest);
    if line == "" {
      assert text[0] == '\n';
    } else {
      assert text[1..] == line[1..] + ("\n" + rest) && text[0] == line[0];
      ShortChunk(line[1..], rest, max - 1);
    }
  }

  lemma {:induction false} LongChunk(s: string, max: nat)
    requires max <= |s| && Lacks(s[..max], '\n')
    ensures ChunkLength(s, max) == max
    decreases max
  {
    if max != 0 {
      assert s[0] == s[..max][0];
      assert s[1..][..max - 1] == s[..max][1..];
      LongChunk(s[1..], max - 1);
    }
  }

  /** A line of at most 254 characters is read by itself, ... */
  lemma LineIsRead(line: string, rest: string, onto: seq<Item>)
    requires Lacks(line, '\n') && |line| <= 254
    ensures Read(line + ("\n" + rest), onto)
         == match ParseBody(line)
            case Skip => Read(rest, onto)
            case Bad => Loaded(false, onto)
            case Entry(item) => Read(rest, [item] + onto)
  {
    var text := line + ("\n" + rest);
    ShortChunk(line, rest, LINE_MAX);
    assert Chunk(text) == line + "\n" && AfterChunk(text) == rest;
    assert (line + "\n")[|line|] == '\n' && forall j :: 0 <= j < |line| ==> (line + "\n")[j] == line[j];
    IndexIs(line + "\n", '\n', |line|);
    assert (line + "\n")[..|line|] == line;
  }

  lemma {:induction false} LastChunk(line: string, max: nat)
    requires Lacks(line, '\n') && |line| <= max
    ensures ChunkLength(line, max) == |line|
    decreases max
  {
    if line != "" {
      LastChunk(line[1..], max - 1);
    }
  }

  /** ... also the last one, if it has no end ... */
  lemma LastLineIsRead(line: string, onto: seq<Item>)
    requires Lacks(line, '\n') && |line| <= 254
    ensures Read(line, onto)
         == match ParseBody(line)
            case Skip => Loaded(true, onto)
            case Bad => Loaded(false, onto)
            case Entry(item) => Loaded(true, [item] + onto)
  {
    LastChunk(line, LINE_MAX);
    IndexIs(line, '\n', |line|);
    assert line[..|line|] == line && line[|line|..] == "";
  }

  /** ... and a longer one in pieces of 255, each of which counts as a line. */
  lemma LongLineIsCut(s: string, onto: seq<Item>)
    requires |s| >= 255 && Lacks(s[..255], '\n')
    ensures Read(s, onto)
         == match ParseBody(s[..255])
            case Skip => Read(s[255..], onto)
            case Bad => Loaded(false, onto)
            case Entry(item) => Read(s[255..], [item] + onto)
  {
    LongChunk(s, LINE_MAX);
    IndexIs(s[..255], '\n', 255);
    assert s[..255][..255] == s[..255];
  }

  /** An empty line is skipped, and one without '=' ends the reading. */
  lemma LineWithoutEquals(line: string)
    requires Lacks(line, '=')
    ensures ParseBody(line) == if line == "" then Skip else Bad
  {
    IndexIs(line, '=', |line|);
  }

  lemma KeyAndValue(key: string, value: string) returns (body: string)
    requires Lacks(key, '=')
    ensures body == key + "=" + value && body != ""
    ensures IndexOf(body, '=') == |key| < |body| && body[..|key|] == key && body[|key| + 1..] == value
  {
    body := key + "=" + value;
    assert body[|key|] == '=' && forall j :: 0 <= j < |key| ==> body[j] == key[j];
    IndexIs(body, '=', |key|);
  }

  /** A key up to the first '=' has the text behind it as its value; without a key the line is skipped. */
  lemma PlainValue(key: string, value: string)
    requires Lacks(key, '=') && (value == "" || value[0] != '\'')
    ensures ParseBody(key + "=" + value) == if key == "" then Skip else Entry(Item(key, value))
  {
    var body := KeyAndValue(key, value);
  }

  lemma {:induction false} LastQuoteIs(s: string, n: nat)
    requires n < |s| && s[n] == '\'' && forall j :: n < j < |s| ==> s[j] != '\''
    ensures LastIndexOf(s, '\'') == n
  {
    if n < |s| - 1 {
      LastQuoteIs(s[..|s| - 1], n);
    }
  }

  /** A value in quotes ends at the last quote; what follows it is dropped. */
  lemma QuotedValue(key: string, value: string, after: string)
    requires Lacks(key, '=') && Lacks(after, '\'')
    ensures ParseBody(key + "=" + ("'" + (value + ("'" + after)))) == if key == "" then Skip else Entry(Item(key, value))
  {
    var quoted := UpToLastQuote(value, after);
    var body := KeyAndValue(key, "'" + quoted);
    assert ("'" + quoted)[1..] == quoted;
  }

  lemma UpToLastQuote(value: string, after: string) returns (quoted: string)
    requires Lacks(after, '\'')
    ensures quoted == value + ("'" + after) && LastIndexOf(quoted, '\'') == |value| < |quoted| && quoted[..|value|] == value
  {
    quoted := value + ("'" + after);
    assert quoted[|value|] == '\'' && forall j :: |value| < j < |quoted| ==> quoted[j] == after[j - |value| - 1];
    LastQuoteIs(quoted, |value|);
  }

  /** A quote that is not closed ends the reading. */
  lemma OpenQuote(key: string, value: string)
    requires Lacks(key, '=') && Lacks(value, '\'')
    ensures ParseBody(key + "=" + ("'" + value)) == Bad
  {
    var body := KeyAndValue(key, "'" + value);
    assert ("'" + value)[1..] == value;
    assert LastIndexOf(value, '\'') == -1;
  }

  // ---- words ----

  /** Blanks are skipped, and a word reaches to the next blank. */
  lemma WordsAreSplit(word: string, rest: string)
    requires word != "" && Lacks(word, ' ')
    ensures Words("") == [] && Words(" " + rest) == Words(rest)
    ensures Words(word) == [word] && Words(word + " " + rest) == [word] + Words(rest)
  {
    assert (" " + rest)[1..] == rest;
    FirstWord(word, rest);
  }

  /** A word is cut at its first '='; without one its value is 1. */
  lemma WordIsCut(key: string, value: string)
    requires Lacks(key, '=')
    ensures Cut(key + "=" + value) == Item(key, value) && Cut(key) == Item(key, "1")
  {
    var word := KeyAndValue(key, value);
    IndexIs(key, '=', |key|);
  }

  /** Only the first line counts. */
  lemma OnlyFirstLine(line: string, rest: string)
    requires Lacks(line, '\n')
    ensures LineItems(line) == CutAll(Words(line)) == LineItems(line + "\n" + rest)
  {
    var text := line + "\n" + rest;
    assert text[|line|] == '\n' && forall j :: 0 <= j < |line| ==> text[j] == line[j];
    IndexIs(line, '\n', |line|);
    IndexIs(text, '\n', |line|);
    assert text[..|line|] == line == line[..|line|];
  }
}
