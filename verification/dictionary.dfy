/**
 Dictionary mode (`buildDictTask`): every line of the word list is trimmed
 and sent unless it is empty or starts with '#'.

 Two sources: the built-in list, split on '\n' and filtered; or a dictionary
 file, read with `bufio.Reader.ReadString('\n')`. The file loop checks for the
 end of the file only after it has sent a line. A skipped line read together
 with the end of the file therefore makes it read again, get "" and the end of
 the file once more, and skip again forever. That happens for every file whose
 last line (after the last '\n') is blank or a comment, in particular for every
 file that ends in '\n' and for the empty file. `DictFileOutcome` records such
 a run as `Hangs` with the lines sent before it.
 */
module Dictionary {
  import opened Common
  import opened GoStrings

  /** The line test of both loops: non-empty and not a comment. */
  predicate KeepWord(w: string) {
    !(HasPrefix(w, "#") || w == "")
  }

  /** The words a sequence of raw lines yields, in order: each line trimmed,
      the empty and '#' ones dropped. */
  function DictFilter(lines: seq<string>): (words: seq<string>)
    ensures |words| <= |lines|
    ensures forall i | 0 <= i < |words| :: KeepWord(words[i]) && IsTrimmed(words[i])
  {
    if lines == [] then [] else ChunkWord(lines[0]) + DictFilter(lines[1..])
  }

  /** The word a line or chunk contributes: its trimmed text, if that passes the test. */
  function ChunkWord(chunk: string): (ws: seq<string>)
    ensures |ws| <= 1
    ensures forall i | 0 <= i < |ws| :: KeepWord(ws[i]) && IsTrimmed(ws[i])
  {
    var w := TrimSpace(chunk);
    if KeepWord(w) then [w] else []
  }

  /** Filtering is line by line: it distributes over concatenation, so the
      words keep the order of the lines they come from. */
  lemma {:induction false} DictFilterAppend(a: seq<string>, b: seq<string>)
    ensures DictFilter(a + b) == DictFilter(a) + DictFilter(b)
  {
    if a == [] {
      assert a + b == b;
    } else {
      var ab := a + b;
      assert ab[0] == a[0] && ab[1..] == a[1..] + b;
      DictFilterAppend(a[1..], b);
      var head, x, y := ChunkWord(a[0]), DictFilter(a[1..]), DictFilter(b);
      assert head + (x + y) == (head + x) + y;
    }
  }

  /** A word is sent exactly when it is the trimmed form of some line and passes the test. */
  lemma {:induction false} DictFilterMembers(lines: seq<string>, w: string)
    ensures w in DictFilter(lines) <==>
            KeepWord(w) && exists i | 0 <= i < |lines| :: TrimSpace(lines[i]) == w
  {
    if lines != [] {
      DictFilterMembers(lines[1..], w);
      if exists i | 0 <= i < |lines[1..]| :: TrimSpace(lines[1..][i]) == w {
        var i :| 0 <= i < |lines[1..]| && TrimSpace(lines[1..][i]) == w;
        assert TrimSpace(lines[i + 1]) == w;
      }
      if exists i | 0 <= i < |lines| :: TrimSpace(lines[i]) == w {
        var i :| 0 <= i < |lines| && TrimSpace(lines[i]) == w;
        if i > 0 {
          assert TrimSpace(lines[1..][i - 1]) == w;
        }
      }
    }
  }

  /** The built-in list: split on '\n' and filtered. */
  function InnerDictWords(dict: string): seq<string> {
    DictFilter(Split(dict, '\n'))
  }

  // ---------------------------------------------------------------------------
  // The file loop

  /** The last line of a file: what follows its last '\n' (the whole file if it has none). */
  function LastLine(content: string): (last: string)
    ensures '\n' !in last
    decreases |content|
  {
    if '\n' in content then LastLine(content[IndexOf(content, '\n') + 1..]) else content
  }

  /** What the file loop sends for a file: the words of its lines in order,
      and it finishes only if the last line is itself a word. */
  function DictFileOutcome(content: string): Emission {
    var words := DictFilter(Split(content, '\n'));
    if KeepWord(TrimSpace(LastLine(content))) then Finished(words) else Hangs(words)
  }

  /** One `ReadString('\n')` before the end of the file: the chunk read trims
      to the trimmed first line, and the words of the text are those of that
      line followed by those of the rest. */
  lemma ReadChunk(rest: string)
    requires '\n' in rest
    ensures var i := IndexOf(rest, '\n');
            var w := TrimSpace(rest[..i + 1]);
            DictFilter(Split(rest, '\n'))
              == (if KeepWord(w) then [w] else []) + DictFilter(Split(rest[i + 1..], '\n'))
  {
    var i := IndexOf(rest, '\n');
    var x := rest[..i];
    assert rest[..i + 1] == x + ['\n'];
    TrimSpaceDropsTrailing(x, '\n');
    var w := TrimSpace(x);
    var tail := Split(rest[i + 1..], '\n');
    assert Split(rest, '\n') == [x] + tail;
    DictFilterAppend([x], tail);
    assert DictFilter([x]) == (if KeepWord(w) then [w] else []) by {
      assert [x][1..] == [];
    }
  }

  /** Text that is empty or ends with a complete line. */
  predicate EndsLine(p: string) {
    p == [] || p[|p| - 1] == '\n'
  }

  /** Lines read before the last '\n' do not change the last line. */
  lemma {:induction false} LastLineAfterLines(p: string, r: string)
    requires EndsLine(p)
    ensures LastLine(p + r) == LastLine(r)
    decreases |p|
  {
    if p != [] {
      var s := p + r;
      assert '\n' in p by { assert p[|p| - 1] == '\n'; }
      var k := IndexOf(p, '\n');
      assert p == p[..k] + ['\n'] + p[k + 1..];
      assert s == p[..k] + ['\n'] + (p[k + 1..] + r);
      IndexOfAfter(p[..k], '\n', p[k + 1..] + r);
      assert IndexOf(s, '\n') == k;
      assert s[k + 1..] == p[k + 1..] + r;
      assert LastLine(s) == LastLine(p[k + 1..] + r);
      var p' := p[k + 1..];
      assert p' == [] || p'[|p'| - 1] == p[|p| - 1];
      LastLineAfterLines(p', r);
    } else {
      assert p + r == r;
    }
  }

  /** Where one `ReadString('\n')` from `pos` stops: just past the next '\n'. */
  function LineEnd(content: string, pos: nat): (e: nat)
    requires pos <= |content| && '\n' in content[pos..]
    ensures pos < e <= |content| && content[e - 1] == '\n'
  {
    pos + IndexOf(content[pos..], '\n') + 1
  }

  /** The words from `pos` on are the chunk's word followed by the words after it. */
  lemma ReadLineWords(content: string, pos: nat)
    requires pos <= |content| && '\n' in content[pos..]
    ensures var e := LineEnd(content, pos);
            DictFilter(Split(content[pos..], '\n'))
              == ChunkWord(content[pos..e]) + DictFilter(Split(content[e..], '\n'))
  {
    var rest := content[pos..];
    var i := IndexOf(rest, '\n');
    SplitAfter(content, pos, i);
    var e := LineEnd(content, pos);
    assert e == pos + i + 1;
    assert content[e..] == rest[i + 1..];
    assert content[pos..e] == rest[..i + 1];
    ReadChunk(rest);
  }

  /** Cutting a suffix after its first `i + 1` elements is cutting the whole there. */
  lemma SplitAfter<T>(s: seq<T>, a: nat, i: nat)
    requires a + i < |s|
    ensures s[a..][i + 1..] == s[a + i + 1..]
    ensures s[a..][..i + 1] == s[a..a + i + 1]
  {
  }

  /** One `ReadString('\n')` that stops at a '\n': the chunk up to it is
      trimmed and sent if it is a word, and reading goes on after it. */
  method ReadLine(content: string, pos: nat, items: seq<string>) returns (items': seq<string>, pos': nat)
    requires pos <= |content| && '\n' in content[pos..]
    ensures pos < pos' <= |content| && content[pos' - 1] == '\n'
    ensures items + DictFilter(Split(content[pos..], '\n')) == items' + DictFilter(Split(content[pos'..], '\n'))
  {
    pos' := LineEnd(content, pos);
    var sent := ChunkWord(content[pos..pos']);
    ReadLineWords(content, pos);
    AppendAssoc(items, sent, DictFilter(Split(content[pos'..], '\n')));
    items' := items + sent;
  }

  lemma ReadEndsInNewline(content: string, pos: nat)
    requires pos <= |content| && (pos == 0 || content[pos - 1] == '\n')
    ensures EndsLine(content[..pos])
  {
  }

  /** The last `ReadString('\n')` reads the last line: what follows the
      last '\n' of the file. */
  lemma FinalChunk(content: string, pos: nat)
    requires pos <= |content| && '\n' !in content[pos..]
    requires pos == 0 || content[pos - 1] == '\n'
    ensures LastLine(content) == content[pos..]
  {
    var read, rest := content[..pos], content[pos..];
    ReadEndsInNewline(content, pos);
    assert content == read + rest;
    LastLineAfterLines(read, rest);
  }

  /** Text without '\n' is one line: its words are its trimmed text if that is a word. */
  lemma SingleLineWords(rest: string)
    requires '\n' !in rest
    ensures var line := TrimSpace(rest);
            DictFilter(Split(rest, '\n')) == if KeepWord(line) then [line] else []
  {
    assert Split(rest, '\n') == [rest];
    assert [rest][1..] == [];
  }

  /** The file loop of `buildDictTask`: each `ReadString('\n')` returns the
      next chunk up to and including '\n', or the rest of the file together
      with the end of the file. A chunk is trimmed (dropping its '\n') and
      sent if it is a word; at the end of the file the loop stops after a word
      and spins forever after anything else. */
  method ReadDictFile(content: string) returns (out: Emission)
    ensures out == DictFileOutcome(content)
  {
    ghost var words := DictFilter(Split(content, '\n'));
    var pos: nat := 0;
    var items: seq<string> := [];
    while '\n' in content[pos..]
      invariant pos <= |content|
      invariant words == items + DictFilter(Split(content[pos..], '\n'))
      invariant pos == 0 || content[pos - 1] == '\n'
      decreases |content| - pos
    {
      items, pos := ReadLine(content, pos, items);
    }
    var line := TrimSpace(content[pos..]);
    FinalRead(content, pos, items);
    if KeepWord(line) {
      out := Finished(items + [line]);
    } else {
      out := Hangs(items);
    }
  }

  /** After the last '\n' the loop reads the last line: it sends that line's
      word and stops, or spins if the line is no word. */
  lemma FinalRead(content: string, pos: nat, items: seq<string>)
    requires pos <= |content| && '\n' !in content[pos..]
    requires pos == 0 || content[pos - 1] == '\n'
    requires DictFilter(Split(content, '\n')) == items + DictFilter(Split(content[pos..], '\n'))
    ensures var line := TrimSpace(content[pos..]);
            DictFileOutcome(content) == if KeepWord(line) then Finished(items + [line]) else Hangs(items)
  {
    var last := content[pos..];
    var line := TrimSpace(last);
    FinalChunk(content, pos);
    SingleLineWords(last);
    OutcomeOf(content, items, line);
  }

  /** The outcome of a file whose words so far and trimmed last line are known. */
  lemma OutcomeOf(content: string, items: seq<string>, line: string)
    requires DictFilter(Split(content, '\n')) == items + (if KeepWord(line) then [line] else [])
    requires TrimSpace(LastLine(content)) == line
    ensures DictFileOutcome(content) == if KeepWord(line) then Finished(items + [line]) else Hangs(items)
  {
  }

  /** A file that ends in '\n' has an empty last line. */
  lemma {:induction false} LastLineAfterNewline(s: string)
    requires |s| >= 1 && s[|s| - 1] == '\n'
    ensures LastLine(s) == []
    decreases |s|
  {
    assert '\n' in s;
    var tail := s[IndexOf(s, '\n') + 1..];
    if tail != [] {
      assert tail[|tail| - 1] == '\n';
      LastLineAfterNewline(tail);
    }
  }

  /** Every file ending in '\n', and the empty file, makes the loop spin. */
  lemma DictFileHangsAfterNewline(content: string)
    requires content == [] || content[|content| - 1] == '\n'
    ensures DictFileOutcome(content).Hangs?
  {
    if content != [] {
      LastLineAfterNewline(content);
    }
    assert TrimSpace([]) == [];
  }

  /** `buildDictTask`: the built-in list when no file is named; otherwise the
      file, or nothing when it cannot be opened (`file` is `None`). */
  function BuildDictTask(dictFile: string, file: Option<string>, innerDict: string): (out: Emission)
    ensures dictFile == "" ==> out == Finished(InnerDictWords(innerDict))
    ensures dictFile != "" && file.None? ==> out == Finished([])
    ensures dictFile != "" && file.Some? ==> out.items == InnerDictWords(file.value)
    ensures forall i | 0 <= i < |out.items| :: KeepWord(out.items[i]) && IsTrimmed(out.items[i])
  {
    if dictFile != "" then
      match file
      case None => Finished([])
      case Some(content) => DictFileOutcome(content)
    else Finished(InnerDictWords(innerDict))
  }
}
