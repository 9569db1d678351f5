/** The kernel command line as a list of settings (src/installer/helper.c:414-453). */
module KvLine {

  import opened KvFile
  import opened KvList
  import opened Sequences

  /** The number of characters before the first blank. */
  function WordLength(s: string): (n: nat)
    ensures n <= |s|
    ensures s != "" && s[0] != ' ' ==> n > 0
    ensures ' ' !in s[..n] && (n < |s| ==> s[n] == ' ')
  {
    IndexOf(s, ' ')
  }

  /** The non-empty pieces between blanks. */
  function Words(s: string): seq<string> {
    if s == "" then []
    else if s[0] == ' ' then Words(s[1..])
    else [s[..WordLength(s)]] + Words(s[WordLength(s)..])
  }

  /** A word cut at its first '='; a word without one stands for "1". */
  function Cut(word: string): Item {
    var eq := IndexOf(word, '=');
    if eq == |word| then Item(word, "1") else Item(word[..eq], word[eq + 1..])
  }

  function CutAll(words: seq<string>): (items: seq<Item>)
    ensures |items| == |words|
  {
    if words == [] then [] else [Cut(words[0])] + CutAll(words[1..])
  }

  function FirstLine(line: string): string {
    line[..IndexOf(line, '\n')]
  }

  function LineItems(line: string): seq<Item> {
    CutAll(Words(FirstLine(line)))
  }

  function WordEnd(s: string, i: nat): (end: nat)
    requires i <= |s|
    ensures i <= end <= |s|
    ensures i < |s| && s[i] != ' ' ==> i < end
    ensures forall j :: i <= j < end ==> s[j] != ' '
    ensures end < |s| ==> s[end] == ' '
    decreases |s| - i
  {
    if i == |s| || s[i] == ' ' then i else WordEnd(s, i + 1)
  }

  lemma FirstWordIs(s: string, n: nat)
    requires 0 < n <= |s| && (n < |s| ==> s[n] == ' ') && forall j :: 0 <= j < n ==> s[j] != ' '
    ensures Words(s) == [s[..n]] + Words(s[n..])
  {
    IndexIs(s, ' ', n);
  }

  lemma FirstWordIn(rest: string, word: string, tail: string)
    requires word != "" && ' ' !in word && (tail != "" ==> tail[0] == ' ')
    requires |rest| == |word| + |tail| && rest[..|word|] == word && rest[|word|..] == tail
    ensures Words(rest) == [word] + Words(tail)
  {
    assert forall j :: 0 <= j < |word| ==> rest[j] == word[j];
    assert tail != "" ==> rest[|word|] == tail[0];
    FirstWordIs(rest, |word|);
  }

  lemma NextWord(s: string, i: nat)
    requires i < |s| && s[i] != ' '
    ensures Words(s[i..]) == [s[i..WordEnd(s, i)]] + Words(s[WordEnd(s, i)..])
  {
    var end := WordEnd(s, i);
    SliceOfDrop(s, i, end - i);
    FirstWordIn(s[i..], s[i..end], s[end..]);
  }

  lemma SkipBlank(s: string, i: nat)
    requires i < |s| && s[i] == ' '
    ensures Words(s[i..]) == Words(s[i + 1..])
  {
    assert s[i..][1..] == s[i + 1..];
  }

  lemma BehindToken(s: string, end: nat, next: nat)
    requires end <= |s| && (next == end || (next == end + 1 <= |s| && s[end] == ' '))
    ensures Words(s[next..]) == Words(s[end..])
  {
    if next != end {
      SkipBlank(s, end);
    }
  }

  lemma {:induction false} BlanksSkipped(s: string, from: nat, i: nat)
    requires from <= i <= |s| && forall j :: from <= j < i ==> s[j] == ' '
    ensures Words(s[i..]) == Words(s[from..])
    decreases i - from
  {
    if from < i {
      SkipBlank(s, from);
      BlanksSkipped(s, from + 1, i);
    }
  }

  lemma CutAt(s: string, from: nat, eq: nat, end: nat)
    requires from <= eq <= end <= |s| && (eq < end ==> s[eq] == '=')
    requires forall j :: from <= j < eq ==> s[j] != '='
    ensures Cut(s[from..end]) == if eq < end then Item(s[from..eq], s[eq + 1..end]) else Item(s[from..end], "1")
  {
    var word := s[from..end];
    assert forall j :: 0 <= j < eq - from ==> word[j] == s[from + j];
    assert eq < end ==> word[eq - from] == '=';
    assert IndexOf(word, '=') == eq - from;
    assert word[..eq - from] == s[from..eq];
    if eq < end {
      assert word[eq - from + 1..] == s[eq + 1..end];
    }
  }

  method SkipBlanks(buffer: string, from: nat) returns (i: nat)
    requires from <= |buffer|
    ensures from <= i <= |buffer| && (i < |buffer| ==> buffer[i] != ' ')
    ensures Words(buffer[i..]) == Words(buffer[from..])
  {
    i := from;
    while i < |buffer| && buffer[i] == ' '
      invariant from <= i <= |buffer|
      invariant forall j :: from <= j < i ==> buffer[j] == ' '
    {
      i := i + 1;
    }
    BlanksSkipped(buffer, from, i);
  }

  /** The next token of a buffer, from a position that is not a blank. */
  method ReadToken(buffer: string, from: nat) returns (item: Item, next: nat)
    requires from < |buffer| && buffer[from] != ' '
    ensures from < next <= |buffer|
    ensures item == Cut(buffer[from..WordEnd(buffer, from)])
    ensures Words(buffer[next..]) == Words(buffer[WordEnd(buffer, from)..])
  {
    ghost var end := WordEnd(buffer, from);
    var i := from;
    while i < |buffer| && buffer[i] != ' ' && buffer[i] != '='
      invariant from <= i <= end
      invariant forall j :: from <= j < i ==> buffer[j] != '='
    {
      i := i + 1;
    }
    var key := buffer[from..i];
    CutAt(buffer, from, i, end);
    if i < |buffer| && buffer[i] == '=' {
      i := i + 1;
      var start := i;
      while i < |buffer| && buffer[i] != ' '
        invariant start <= i <= end
      {
        i := i + 1;
      }
      item := Item(key, buffer[start..i]);
    } else {
      item := Item(key, "1");
      if i < |buffer| {
        i := i + 1;
      }
    }
    next := i;
    BehindToken(buffer, end, next);
  }

  /** Lines of STRING_SIZE - 1 characters or more leave the local copy without an end. */
  method ReadKvFromLine(list: KvList, line: string)
    requires list.Valid() && |line| < STRING_SIZE - 1
    modifies list
    ensures list.Valid()
    ensures list.Contents() == Reverse(LineItems(line)) + old(list.Contents())
  {
    var buffer := line[..IndexOf(line, '\n')];
    var i := 0;
    ghost var done: seq<string> := [];
    assert buffer[0..] == buffer;
    while i < |buffer|
      invariant 0 <= i <= |buffer| && list.Valid()
      invariant done + Words(buffer[i..]) == Words(buffer)
      invariant list.Contents() == Reverse(CutAll(done)) + old(list.Contents())
    {
      i := SkipBlanks(buffer, i);
      if i == |buffer| {
        continue;
      }
      ghost var word := buffer[i..WordEnd(buffer, i)];
      NextWord(buffer, i);
      var item, next := ReadToken(buffer, i);
      OneMoreToken(done, word, Words(buffer[next..]), Words(buffer), list.Contents(), old(list.Contents()));
      list.AddKv(item.key, item.value);
      done := done + [word];
      i := next;
    }
    assert buffer[|buffer|..] == "" && done + [] == done;
  }

  lemma OneMoreToken(done: seq<string>, word: string, rest: seq<string>, all: seq<string>, items: seq<Item>, base: seq<Item>)
    requires done + ([word] + rest) == all && items == Reverse(CutAll(done)) + base
    ensures done + [word] + rest == all
    ensures [Cut(word)] + items == Reverse(CutAll(done + [word])) + base
  {
    ReverseOneMore(done, word);
  }

  lemma {:induction false} CutOneMore(words: seq<string>, word: string)
    ensures CutAll(words + [word]) == CutAll(words) + [Cut(word)]
  {
    if words == [] {
      assert words + [word] == [word];
    } else {
      assert (words + [word])[1..] == words[1..] + [word];
      CutOneMore(words[1..], word);
    }
  }

  lemma {:induction false} ReverseSum(a: seq<Item>, b: seq<Item>)
    ensures Reverse(a + b) == Reverse(b) + Reverse(a)
  {
    if a == [] {
      assert a + b == b;
    } else {
      assert (a + b)[1..] == a[1..] + b;
      ReverseSum(a[1..], b);
    }
  }

  lemma ReverseOneMore(words: seq<string>, word: string)
    ensures Reverse(CutAll(words + [word])) == [Cut(word)] + Reverse(CutAll(words))
  {
    CutOneMore(words, word);
    ReverseSum(CutAll(words), [Cut(word)]);
  }

  // ---- what the tokens are ----

  lemma {:induction false} FindInSum(a: seq<Item>, b: seq<Item>, key: string)
    ensures Find(a + b, key) == if Find(a, key).Some? then Find(a, key) else Find(b, key)
  {
    if a == [] {
      assert a + b == b;
    } else {
      assert (a + b)[1..] == a[1..] + b;
      FindInSum(a[1..], b, key);
    }
  }

  /** After a line has been read onto a list, a key has its last setting on the line, or else the value
      that it had before. */
  lemma LastSettingWins(line: string, before: seq<Item>, key: string)
    ensures Find(Reverse(LineItems(line)) + before, key)
         == if FindLast(LineItems(line), key).Some? then FindLast(LineItems(line), key) else Find(before, key)
  {
    FindInSum(Reverse(LineItems(line)), before, key);
    FindInReverse(LineItems(line), key);
  }

  lemma {:induction false} WordsAreClean(s: string)
    ensures forall w :: w in Words(s) ==> w != "" && ' ' !in w && forall c :: c in w ==> c in s
  {
    if s != "" {
      if s[0] == ' ' {
        WordsAreClean(s[1..]);
      } else {
        WordsAreClean(s[WordLength(s)..]);
      }
    }
  }

  /** Nothing but blanks is lost. */
  function Squeeze(s: string): string {
    if s == "" then "" else (if s[0] == ' ' then "" else [s[0]]) + Squeeze(s[1..])
  }

  function Concat(words: seq<string>): string {
    if words == [] then "" else words[0] + Concat(words[1..])
  }

  lemma {:induction false} SqueezeWord(w: string, rest: string)
    requires ' ' !in w
    ensures Squeeze(w + rest) == w + Squeeze(rest)
  {
    if w == "" {
      assert w + rest == rest;
    } else {
      assert (w + rest)[1..] == w[1..] + rest;
      SqueezeWord(w[1..], rest);
    }
  }

  lemma {:induction false} WordsLoseOnlyBlanks(s: string)
    ensures Concat(Words(s)) == Squeeze(s)
  {
    if s != "" {
      if s[0] == ' ' {
        WordsLoseOnlyBlanks(s[1..]);
      } else {
        var n := WordLength(s);
        WordsLoseOnlyBlanks(s[n..]);
        SqueezeWord(s[..n], s[n..]);
        assert s == s[..n] + s[n..];
      }
    }
  }

  // ---- printing ----

  predicate PlainKey(key: string) {
    ' ' !in key && '=' !in key && '\n' !in key
  }

  predicate Plain(i: Item) {
    PlainKey(i.key) && ' ' !in i.value && '\n' !in i.value
  }

  function PrintWord(i: Item): string {
    i.key + "=" + i.value
  }

  function PrintLine(items: seq<Item>): string {
    if items == [] then ""
    else if |items| == 1 then PrintWord(items[0])
    else PrintWord(items[0]) + " " + PrintLine(items[1..])
  }

  lemma {:induction false} PlainLineHasNoNewline(items: seq<Item>)
    requires forall i :: i in items ==> Plain(i)
    ensures '\n' !in PrintLine(items)
  {
    if items != [] {
      PlainLineHasNoNewline(items[1..]);
      assert Plain(items[0]);
      assert '\n' !in PrintWord(items[0]);
      assert '\n' !in PrintWord(items[0]) + " ";
    }
  }

  lemma FirstWord(w: string, rest: string)
    requires w != "" && ' ' !in w
    ensures Words(w) == [w] && Words(w + " " + rest) == [w] + Words(rest)
  {
    FirstWordIs(w, |w|);
    assert w[..|w|] == w && w[|w|..] == "";
    var s := w + " " + rest;
    assert s[|w|] == ' ' && forall j :: 0 <= j < |w| ==> s[j] == w[j];
    FirstWordIs(s, |w|);
    assert s[..|w|] == w && s[|w|..] == " " + rest && (" " + rest)[1..] == rest;
  }

  lemma CutPrinted(i: Item)
    requires Plain(i)
    ensures Cut(PrintWord(i)) == i
  {
    var w := PrintWord(i);
    assert w[|i.key|] == '=' && forall j :: 0 <= j < |i.key| ==> w[j] == i.key[j];
    assert IndexOf(w, '=') == |i.key|;
    assert w[..|i.key|] == i.key && w[|i.key| + 1..] == i.value;
  }

  lemma WordsOfPrinted(i: Item, line: string)
    requires Plain(i)
    ensures CutAll(Words(PrintWord(i))) == [i]
    ensures CutAll(Words(PrintWord(i) + " " + line)) == [i] + CutAll(Words(line))
  {
    var w := PrintWord(i);
    CutPrinted(i);
    assert w[|i.key|] == '=';
    FirstWord(w, line);
    assert ([w] + Words(line))[1..] == Words(line);
  }

  lemma {:induction false} WordsOfPlainLine(items: seq<Item>)
    requires forall i :: i in items ==> Plain(i)
    ensures CutAll(Words(PrintLine(items))) == items
  {
    if items != [] {
      WordsOfPrinted(items[0], PrintLine(items[1..]));
      WordsOfPlainLine(items[1..]);
      assert items == [items[0]] + items[1..];
    }
  }

  lemma {:induction false} CutIsPlain(words: seq<string>)
    requires forall w :: w in words ==> ' ' !in w && '\n' !in w
    ensures forall i :: i in CutAll(words) ==> Plain(i)
  {
    if words != [] {
      CutIsPlain(words[1..]);
      var w := words[0];
      assert forall c :: c in Cut(w).key ==> c in w;
      assert IndexOf(w, '=') < |w| ==> forall c :: c in Cut(w).value ==> c in w;
    }
  }

  /** Printing items as one line and parsing the line gives them back exactly when no key contains a
      blank, '=' or newline and no value a blank or newline. */
  lemma LineSurvivesIffPlain(items: seq<Item>)
    ensures LineItems(PrintLine(items)) == items <==> forall i :: i in items ==> Plain(i)
  {
    var line := PrintLine(items);
    if forall i :: i in items ==> Plain(i) {
      PlainLineHasNoNewline(items);
      assert FirstLine(line) == line;
      WordsOfPlainLine(items);
    }
    WordsAreClean(FirstLine(line));
    CutIsPlain(Words(FirstLine(line)));
  }
}
