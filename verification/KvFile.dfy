/** Settings files (src/installer/helper.c:298-381): one `key=value` per line, a value with a
    blank in single quotes.  Files and values are texts without NUL. */
module KvFile {

  import opened Wrappers
  import opened KvList

  // ---- reading ----

  /** The length of what fgets takes from a text: through the first newline, at most max. */
  function ChunkLength(s: string, max: nat): (n: nat)
    ensures n <= |s| && n <= max
    ensures s != "" && max > 0 ==> n > 0
  {
    if s == "" || max == 0 then 0 else if s[0] == '\n' then 1 else 1 + ChunkLength(s[1..], max - 1)
  }

  const LINE_MAX: nat := STRING_SIZE - 1

  function Chunk(s: string): string {
    s[..ChunkLength(s, LINE_MAX)]
  }

  function AfterChunk(s: string): string {
    s[ChunkLength(s, LINE_MAX)..]
  }

  /** The first position of c, or the length of the text. */
  function IndexOf(s: string, c: char): (i: nat)
    ensures i <= |s|
    ensures i < |s| ==> s[i] == c
    ensures forall j :: 0 <= j < i ==> s[j] != c
  {
    if s == "" || s[0] == c then 0 else 1 + IndexOf(s[1..], c)
  }

  lemma IndexIs(s: string, c: char, n: nat)
    requires n <= |s| && (n < |s| ==> s[n] == c) && forall j :: 0 <= j < n ==> s[j] != c
    ensures IndexOf(s, c) == n
  {
  }

  function LastIndexOf(s: string, c: char): (i: int)
    ensures -1 <= i < |s|
    ensures i >= 0 ==> s[i] == c
    ensures forall j :: i < j < |s| ==> s[j] != c
  {
    if s == "" then -1 else if s[|s| - 1] == c then |s| - 1 else LastIndexOf(s[..|s| - 1], c)
  }

  datatype Line = Skip | Bad | Entry(item: Item)

  /** A value, with its quotes taken off if it starts with one; None if the closing one is missing. */
  function Unquote(v: string): Option<string> {
    if v == "" || v[0] != '\'' then Some(v)
    else if LastIndexOf(v[1..], '\'') == -1 then None
    else Some(v[1..][..LastIndexOf(v[1..], '\'')])
  }

  /** What one buffer says, once its newline is gone. */
  function ParseBody(body: string): Line {
    if body == "" then Skip
    else
      var eq := IndexOf(body, '=');
      if eq == |body| then Bad
      else
        var value := Unquote(body[eq + 1..]);
        if value.None? then Bad
        else if eq == 0 then Skip
        else Entry(Item(body[..eq], value.value))
  }

  function ParseBuffer(buffer: string): Line {
    ParseBody(buffer[..IndexOf(buffer, '\n')])
  }

  datatype Loaded = Loaded(ok: bool, items: seq<Item>)

  /** Reading a text on top of a list. */
  function Read(text: string, onto: seq<Item>): Loaded
    decreases |text|
  {
    if text == "" then Loaded(true, onto)
    else match ParseBuffer(Chunk(text))
      case Skip => Read(AfterChunk(text), onto)
      case Bad => Loaded(false, onto)
      case Entry(item) => Read(AfterChunk(text), [item] + onto)
  }

  // ---- writing ----

  function PrintValue(v: string): string {
    if ' ' in v then "'" + v + "'" else v
  }

  function PrintBody(i: Item): string {
    i.key + "=" + PrintValue(i.value)
  }

  function PrintItem(i: Item): string {
    PrintBody(i) + "\n"
  }

  function Print(items: seq<Item>): string {
    if items == [] then "" else PrintItem(items[0]) + Print(items[1..])
  }

  // ---- the two loops ----

  /** The part of the read loop that works on one buffer. */
  method SplitLine(buffer: string) returns (line: Line)
    ensures line == ParseBody(buffer)
  {
    if buffer == "" {
      return Skip;
    }
    var eq := IndexOf(buffer, '=');
    if eq == |buffer| {
      return Bad;
    }
    var key, value := buffer[..eq], buffer[eq + 1..];
    if value != "" && value[0] == '\'' {
      value := value[1..];
      var quote := LastIndexOf(value, '\'');
      if quote == -1 {
        return Bad;
      }
      value := value[..quote];
    }
    line := if key != "" then Entry(Item(key, value)) else Skip;
  }

  method ReadKvFromFile(list: KvList, file: Option<string>) returns (rc: int)
    requires list.Valid()
    modifies list
    ensures list.Valid() && forall n :: n in list.spine ==> n in old(list.spine) || fresh(n)
    ensures file == None ==> rc == FAILURE && list.Contents() == old(list.Contents())
    ensures file.Some? ==> list.Contents() == Read(file.value, old(list.Contents())).items
                           && (rc == SUCCESS <==> Read(file.value, old(list.Contents())).ok)
  {
    if file.None? {
      return FAILURE;
    }
    var rest := file.value;
    while rest != ""
      invariant list.Valid() && forall n :: n in list.spine ==> n in old(list.spine) || fresh(n)
      invariant Read(rest, list.Contents()) == Read(file.value, old(list.Contents()))
      decreases |rest|
    {
      var buffer := Chunk(rest);
      var line := SplitLine(buffer[..IndexOf(buffer, '\n')]);
      rest := AfterChunk(rest);
      if line.Bad? {
        return FAILURE;
      }
      if line.Entry? {
        list.AddKv(line.item.key, line.item.value);
      }
    }
    rc := SUCCESS;
  }

  method PrintKv(list: KvList) returns (text: string)
    requires list.Valid()
    ensures text == Print(list.Contents())
  {
    text := "";
    var cur := list.head;
    ghost var k := 0;
    while cur != null
      invariant 0 <= k <= |list.spine| && cur == NodeAt(list.spine, k)
      invariant text + Print(list.Contents()[k..]) == Print(list.Contents())
      decreases |list.spine| - k
    {
      assert list.Contents()[k..][1..] == list.Contents()[k + 1..];
      if ' ' in cur.value {
        text := text + (cur.key + "=" + ("'" + cur.value + "'") + "\n");
      } else {
        text := text + (cur.key + "=" + cur.value + "\n");
      }
      cur := cur.next;
      k := k + 1;
    }
  }

  /** The result and what the file holds then; opening it for writing empties it, before the lock. */
  method WriteKvToFile(list: KvList, opens: bool, locks: bool, before: Option<string>) returns (rc: int, file: Option<string>)
    requires list.Valid()
    ensures rc == SUCCESS <==> opens && locks
    ensures file == if !opens then before else if !locks then Some("") else Some(Print(list.Contents()))
  {
    if !opens {
      return FAILURE, before;
    }
    if !locks {
      return FAILURE, Some("");
    }
    var text := PrintKv(list);
    rc, file := SUCCESS, Some(text);
  }
}
