/**
 * The line splitting of `bulk_insert_from_file`, on the whole byte stream:
 * lines end at every `\n` or `\r`, each line is trimmed of `isspace`
 * characters, and only non-empty results are kept.  The chunked loop that
 * computes this with a carry buffer is `ReadLines`.
 */
module LineSplit {

  /** `isspace` in the C locale: space, tab, newline, vertical tab, form feed, carriage return. */
  predicate IsSpace(c: char)
  {
    c == ' ' || c == '\t' || c == '\n' || c == '\U{000B}' || c == '\U{000C}' || c == '\r'
  }

  /** A line boundary. */
  predicate IsBreak(c: char)
  {
    c == '\n' || c == '\r'
  }

  /** Where the trailing spaces of `s[..e]` begin: the end of the line once trimmed. */
  function LastKept(s: string, e: nat): (r: nat)
    requires e <= |s|
    ensures r <= e && (r > 0 ==> !IsSpace(s[r - 1]))
    decreases e
  {
    if e == 0 || !IsSpace(s[e - 1]) then e else LastKept(s, e - 1)
  }

  /** Where the leading spaces of `s[b..e]` end: the start of the line once trimmed. */
  function FirstKept(s: string, b: nat, e: nat): (r: nat)
    requires b <= e <= |s|
    ensures b <= r <= e && (r < e ==> !IsSpace(s[r]))
    decreases e - b
  {
    if b == e || !IsSpace(s[b]) then b else FirstKept(s, b + 1, e)
  }

  /** The trimming of a line: trailing spaces first, then leading ones. */
  function Trim(s: string): string
  {
    var e := LastKept(s, |s|);
    s[FirstKept(s, 0, e)..e]
  }

  /** Everything from the result of `LastKept` up to `e` is a space. */
  lemma {:induction false} LastKeptSpaces(s: string, e: nat)
    requires e <= |s|
    ensures forall i :: LastKept(s, e) <= i < e ==> IsSpace(s[i])
    decreases e
  {
    if e > 0 && IsSpace(s[e - 1]) {
      LastKeptSpaces(s, e - 1);
    }
  }

  /** Everything from `b` up to the result of `FirstKept` is a space. */
  lemma {:induction false} FirstKeptSpaces(s: string, b: nat, e: nat)
    requires b <= e <= |s|
    ensures forall i :: b <= i < FirstKept(s, b, e) ==> IsSpace(s[i])
    decreases e - b
  {
    if b < e && IsSpace(s[b]) {
      FirstKeptSpaces(s, b + 1, e);
    }
  }

  /**
   * `Trim(s)` is the slice of `s` from the first to the last character that is
   * not a space, and everything outside it is a space.
   */
  lemma TrimIsSlice(s: string)
    ensures var e := LastKept(s, |s|); var b := FirstKept(s, 0, e);
      && Trim(s) == s[b..e]
      && (forall i :: 0 <= i < b ==> IsSpace(s[i]))
      && (forall i :: e <= i < |s| ==> IsSpace(s[i]))
      && (b < e ==> !IsSpace(s[b]) && !IsSpace(s[e - 1]))
  {
    var e := LastKept(s, |s|);
    LastKeptSpaces(s, |s|);
    FirstKeptSpaces(s, 0, e);
  }

  /** Trimming a string twice changes nothing more. */
  lemma TrimIdempotent(s: string)
    ensures Trim(Trim(s)) == Trim(s)
  {
    var e := LastKept(s, |s|);
    var b := FirstKept(s, 0, e);
    var t := s[b..e];
    if t != [] {
      assert t[|t| - 1] == s[e - 1] && t[0] == s[b];
      assert LastKept(t, |t|) == |t|;
      assert FirstKept(t, 0, |t|) == 0;
      assert t[0..|t|] == t;
    }
  }

  /** What one finished line contributes: its trimmed form, unless that is empty. */
  function Emit(line: string): (r: seq<string>)
    ensures |r| <= 1 && (r != [] ==> r[0] != [] && r[0] == Trim(line))
    ensures Trim(line) != [] ==> r != []
  {
    var t := Trim(line);
    if t == [] then [] else [t]
  }

  /** The lines of `s`, where `pending` is the part of the current line read before `s`. */
  function LinesFrom(s: string, pending: string): seq<string>
    decreases |s|
  {
    if s == [] then Emit(pending)
    else if IsBreak(s[0]) then Emit(pending) + LinesFrom(s[1..], [])
    else LinesFrom(s[1..], pending + [s[0]])
  }

  /** The words `bulk_insert_from_file` inserts from a stream, in order. */
  function Lines(s: string): seq<string>
  {
    LinesFrom(s, [])
  }

  lemma EmitWord(line: string)
    requires forall c :: c in line ==> !IsBreak(c)
    ensures forall w :: w in Emit(line) ==> w != [] && Trim(w) == w && forall c :: c in w ==> !IsBreak(c)
  {
    var e := LastKept(line, |line|);
    var b := FirstKept(line, 0, e);
    var t := Trim(line);
    TrimIdempotent(line);
    forall c | c in t
      ensures c in line
    {
      var i :| 0 <= i < |t| && t[i] == c;
      assert line[b + i] == c;
    }
  }

  /** Every word produced is non-empty, trimmed, and has no line break. */
  lemma {:induction false} LinesFromWords(s: string, pending: string)
    requires forall c :: c in pending ==> !IsBreak(c)
    ensures forall w :: w in LinesFrom(s, pending) ==>
      w != [] && Trim(w) == w && forall c :: c in w ==> !IsBreak(c)
    decreases |s|
  {
    EmitWord(pending);
    if s != [] {
      if IsBreak(s[0]) {
        LinesFromWords(s[1..], []);
      } else {
        LinesFromWords(s[1..], pending + [s[0]]);
      }
    }
  }

  /** The lines of a concatenation split at a line break are the lines of each side. */
  lemma {:induction false} LinesFromBreak(a: string, c: char, b: string, pending: string)
    requires IsBreak(c)
    ensures LinesFrom(a + [c] + b, pending) == LinesFrom(a, pending) + LinesFrom(b, [])
    decreases |a|
  {
    if a == [] {
      assert a + [c] + b == [c] + b;
      assert ([c] + b)[1..] == b;
    } else {
      assert (a + [c] + b)[0] == a[0];
      assert (a + [c] + b)[1..] == a[1..] + [c] + b;
      if IsBreak(a[0]) {
        LinesFromBreak(a[1..], c, b, []);
      } else {
        LinesFromBreak(a[1..], c, b, pending + [a[0]]);
      }
    }
  }

  /** Text without a break is one line, completed by the end of the stream. */
  lemma {:induction false} LinesFromUnbroken(a: string, pending: string)
    requires forall i :: 0 <= i < |a| ==> !IsBreak(a[i])
    ensures LinesFrom(a, pending) == Emit(pending + a)
    decreases |a|
  {
    if a == [] {
      assert pending + a == pending;
    } else {
      assert pending + a == (pending + [a[0]]) + a[1..];
      LinesFromUnbroken(a[1..], pending + [a[0]]);
    }
  }

  /** Trailing blanks after the last kept character `s[e - 1]` are all skipped. */
  lemma {:induction false} LastKeptSkips(s: string, e: nat, k: nat)
    requires 0 < e <= k <= |s| && !IsSpace(s[e - 1])
    requires forall i :: e <= i < k ==> IsSpace(s[i])
    ensures LastKept(s, k) == e
    decreases k
  {
    if k > e {
      LastKeptSkips(s, e, k - 1);
    }
  }

  /** Leading blanks before the first kept character `s[b]` are all skipped. */
  lemma {:induction false} FirstKeptSkips(s: string, j: nat, b: nat, e: nat)
    requires j <= b < e <= |s| && !IsSpace(s[b])
    requires forall i :: j <= i < b ==> IsSpace(s[i])
    ensures FirstKept(s, j, e) == b
    decreases b - j
  {
    if j < b {
      FirstKeptSkips(s, j + 1, b, e);
    }
  }

  /** A line whose only blanks lie before `b` and from `e` on trims to `s[b..e]`. */
  lemma TrimBetween(s: string, b: nat, e: nat)
    requires b < e <= |s| && !IsSpace(s[b]) && !IsSpace(s[e - 1])
    requires forall i :: 0 <= i < b ==> IsSpace(s[i])
    requires forall i :: e <= i < |s| ==> IsSpace(s[i])
    ensures Trim(s) == s[b..e]
  {
    LastKeptSkips(s, e, |s|);
    FirstKeptSkips(s, 0, b, e);
  }

  /** A line whose kept part lies between positions `b` and `e` emits exactly `s[b..e]`. */
  lemma EmitBetween(s: string, b: nat, e: nat)
    requires b < e <= |s| && !IsSpace(s[b]) && !IsSpace(s[e - 1])
    requires forall i :: 0 <= i < b ==> IsSpace(s[i])
    requires forall i :: e <= i < |s| ==> IsSpace(s[i])
    ensures Emit(s) == [s[b..e]]
  {
    TrimBetween(s, b, e);
    assert |Trim(s)| == e - b;
  }

  /** A stream of one unterminated line, blank-free between positions `b` and `e`, gives `s[b..e]`. */
  lemma OneLine(s: string, b: nat, e: nat)
    requires b < e <= |s| && !IsSpace(s[b]) && !IsSpace(s[e - 1])
    requires forall i :: 0 <= i < |s| ==> !IsBreak(s[i])
    requires forall i :: 0 <= i < b ==> IsSpace(s[i])
    requires forall i :: e <= i < |s| ==> IsSpace(s[i])
    ensures LinesFrom(s, []) == [s[b..e]]
  {
    LinesFromUnbroken(s, []);
    assert [] + s == s;
    EmitBetween(s, b, e);
  }

  // The three lines of the example below, one at a time.
  lemma CatLine()
    ensures LinesFrom("cat", []) == ["cat"]
  {
    OneLine("cat", 0, 3);
    assert "cat"[0..3] == "cat";
  }

  lemma AppleLine()
    ensures LinesFrom("apple", []) == ["apple"]
  {
    OneLine("apple", 0, 5);
    assert "apple"[0..5] == "apple";
  }

  lemma BananaLine()
    ensures LinesFrom(" banana ", []) == ["banana"]
  {
    OneLine(" banana ", 1, 7);
    assert " banana "[1..7] == "banana";
  }

  /**
   * Mixed terminators, a blank line and surrounding blanks: the stream
   * "cat\r\napple\n\n banana \r" gives exactly the words "cat", "apple", "banana".
   */
  lemma MixedTerminatorsExample()
    ensures Lines("cat\r\napple\n\n banana \r") == ["cat", "apple", "banana"]
  {
    var tail := " banana " + ['\r'] + "";
    var blank2 := "" + ['\n'] + tail;
    var rest := "apple" + ['\n'] + blank2;
    var blank1 := "" + ['\n'] + rest;
    assert "cat\r\napple\n\n banana \r" == "cat" + ['\r'] + blank1;
    LinesFromBreak("cat", '\r', blank1, []);
    LinesFromBreak("", '\n', rest, []);
    LinesFromBreak("apple", '\n', blank2, []);
    LinesFromBreak("", '\n', tail, []);
    LinesFromBreak(" banana ", '\r', "", []);
    CatLine();
    AppleLine();
    BananaLine();
  }

  /** The lines that a break in `s[i..]` completes, `pending` being the start of the first. */
  function Completed(s: string, i: nat, pending: string): seq<string>
    requires i <= |s|
    decreases |s| - i
  {
    if i == |s| then []
    else if IsBreak(s[i]) then Emit(pending) + Completed(s, i + 1, [])
    else Completed(s, i + 1, pending + [s[i]])
  }

  /** The unfinished line after `s[i..]`: what the carry buffer holds. */
  function Leftover(s: string, i: nat, pending: string): string
    requires i <= |s|
    decreases |s| - i
  {
    if i == |s| then pending
    else if IsBreak(s[i]) then Leftover(s, i + 1, [])
    else Leftover(s, i + 1, pending + [s[i]])
  }

  /** A break completes the pending line; the next one starts empty. */
  lemma BreakStep(s: string, i: nat, pending: string, done: seq<string>)
    requires i < |s| && IsBreak(s[i])
    ensures done + Completed(s, i, pending) == (done + Emit(pending)) + Completed(s, i + 1, [])
    ensures Leftover(s, i, pending) == Leftover(s, i + 1, [])
  {
  }

  /** Any other character extends the pending line. */
  lemma KeepStep(s: string, i: nat, pending: string)
    requires i < |s| && !IsBreak(s[i])
    ensures Completed(s, i, pending) == Completed(s, i + 1, pending + [s[i]])
    ensures Leftover(s, i, pending) == Leftover(s, i + 1, pending + [s[i]])
  {
  }

  /** A run of breaks after the first completes nothing: the lines between them are empty. */
  lemma {:induction false} SkipBreaks(s: string, a: nat, b: nat)
    requires a <= b < |s|
    requires forall k :: a < k <= b ==> IsBreak(s[k])
    ensures Completed(s, a + 1, []) == Completed(s, b + 1, [])
    ensures Leftover(s, a + 1, []) == Leftover(s, b + 1, [])
    decreases b - a
  {
    if a < b {
      SkipBreaks(s, a + 1, b);
      assert Emit([]) == [];
    }
  }

  /**
   * The skip over consecutive CR/LF characters after a break at `i`: the
   * result is the last break of the run, and the lines scanned from just
   * after it are those scanned from just after `i`.
   */
  method SkipBreakRun(s: string, i: nat) returns (j: nat)
    requires i < |s|
    ensures i <= j < |s|
    ensures forall k :: i < k <= j ==> IsBreak(s[k])
    ensures j + 1 == |s| || !IsBreak(s[j + 1])
    ensures Completed(s, j + 1, []) == Completed(s, i + 1, [])
    ensures Leftover(s, j + 1, []) == Leftover(s, i + 1, [])
  {
    j := i;
    while j + 1 < |s| && IsBreak(s[j + 1])
      invariant i <= j < |s|
      invariant forall k :: i < k <= j ==> IsBreak(s[k])
    {
      j := j + 1;
    }
    SkipBreaks(s, i, j);
  }

  /**
   * What the read loop does at a line break: the carried text followed by the
   * segment read since the last break is one line, trimmed in place, giving
   * the word to insert unless nothing is left.  When both are empty there is
   * nothing to trim.
   */
  method FlushLine(carry: string, segment: string) returns (words: seq<string>)
    ensures words == Emit(carry + segment)
  {
    words := [];
    if |segment| > 0 || carry != [] {
      var line := segment;
      if carry != [] {
        line := carry + segment;
      } else {
        assert carry + segment == segment;
      }
      var b, e := TrimBounds(line);
      if e > b {
        words := [line[b..e]];
      }
    } else {
      assert carry + segment == [];
    }
  }

  /** Extending the pending line by the next character of the chunk. */
  lemma SliceExtend(carry: string, s: string, a: nat, i: nat)
    requires a <= i < |s|
    ensures carry + s[a..i + 1] == (carry + s[a..i]) + [s[i]]
  {
    assert s[a..i + 1] == s[a..i] + [s[i]];
  }

  /** Splitting the stream anywhere: the lines completed before the cut, then the rest with the unfinished line carried over. */
  lemma {:induction false} LinesFromSplit(s: string, i: nat, t: string, pending: string)
    requires i <= |s|
    ensures LinesFrom(s[i..] + t, pending) == Completed(s, i, pending) + LinesFrom(t, Leftover(s, i, pending))
    decreases |s| - i
  {
    if i == |s| {
      assert s[i..] + t == t;
    } else {
      var u := s[i..] + t;
      assert u[0] == s[i];
      assert u[1..] == s[i + 1..] + t;
      if IsBreak(s[i]) {
        assert LinesFrom(u, pending) == Emit(pending) + LinesFrom(s[i + 1..] + t, []);
        LinesFromSplit(s, i + 1, t, []);
      } else {
        assert LinesFrom(u, pending) == LinesFrom(s[i + 1..] + t, pending + [s[i]]);
        LinesFromSplit(s, i + 1, t, pending + [s[i]]);
      }
    }
  }

  /** The concatenation of the chunks read. */
  function Concat(chunks: seq<string>): (r: string)
    ensures chunks == [] ==> r == []
  {
    if chunks == [] then [] else chunks[0] + Concat(chunks[1..])
  }

  /** The successive reads of `size` bytes from `s`; the last may be shorter.  A size of 0 reads nothing. */
  function Chunks(s: string, size: nat): (r: seq<string>)
    ensures size == 0 ==> r == []
    ensures size > 0 ==> Concat(r) == s
    ensures forall i :: 0 <= i < |r| ==> 0 < |r[i]| <= size
    decreases |s|
  {
    if size == 0 || s == [] then []
    else if |s| <= size then
      assert Concat([s]) == s + Concat([]);
      [s]
    else
      var rest := Chunks(s[size..], size);
      assert Concat([s[..size]] + rest) == s[..size] + Concat(rest) by {
        assert ([s[..size]] + rest)[1..] == rest;
      }
      assert s == s[..size] + s[size..];
      [s[..size]] + rest
  }

  /** The two trimming loops of `bulk_insert_from_file`: trailing spaces from `e`, then leading ones from `b`. */
  method TrimBounds(s: string) returns (b: nat, e: nat)
    ensures b <= e <= |s| && s[b..e] == Trim(s)
  {
    b, e := 0, |s|;
    while e > b && IsSpace(s[e - 1])
      invariant 0 == b <= e <= |s|
      invariant LastKept(s, e) == LastKept(s, |s|)
    {
      e := e - 1;
    }
    while b < e && IsSpace(s[b])
      invariant b <= e
      invariant FirstKept(s, b, e) == FirstKept(s, 0, e)
    {
      b := b + 1;
    }
  }

  /**
   * The byte loop of `bulk_insert_from_file` over one chunk: at each break the
   * carried text and the segment since the last break are flushed as one line,
   * runs of breaks are skipped, and the unfinished rest is appended to the carry.
   */
  method ScanChunk(buffer: string, carryIn: string) returns (carry: string, words: seq<string>)
    ensures carry == Leftover(buffer, 0, carryIn)
    ensures words == Completed(buffer, 0, carryIn)
  {
    words := [];
    carry := carryIn;
    var lineStart := 0;
    var i := 0;
    ghost var pending := carryIn;
    while i < |buffer|
      invariant 0 <= lineStart <= i <= |buffer|
      invariant pending == carry + buffer[lineStart..i]
      invariant words + Completed(buffer, i, pending) == Completed(buffer, 0, carryIn)
      invariant Leftover(buffer, i, pending) == Leftover(buffer, 0, carryIn)
    {
      var c := buffer[i];
      if IsBreak(c) {
        BreakStep(buffer, i, pending, words);
        var flushed := FlushLine(carry, buffer[lineStart..i]);
        words := words + flushed;
        i := SkipBreakRun(buffer, i);
        carry := [];
        pending := [];
        lineStart := i + 1;
        assert pending == carry + buffer[lineStart..i + 1];
      } else {
        KeepStep(buffer, i, pending);
        SliceExtend(carry, buffer, lineStart, i);
        pending := pending + [c];
      }
      i := i + 1;
    }
    assert buffer[lineStart..] == buffer[lineStart..i];
    assert words + [] == words;
    if lineStart < |buffer| {
      carry := carry + buffer[lineStart..];
    }
  }

  /**
   * The read loop of `bulk_insert_from_file` over the chunks read, then the
   * last unterminated line: the words it inserts, in order.  They depend only
   * on the concatenated stream, not on where it was cut into chunks.
   */
  method ReadLines(chunks: seq<string>) returns (words: seq<string>)
    ensures words == Lines(Concat(chunks))
  {
    ghost var all := Concat(chunks);
    words := [];
    var carry: string := [];
    var k := 0;
    assert chunks[0..] == chunks;
    while k < |chunks|
      invariant 0 <= k <= |chunks|
      invariant words + LinesFrom(Concat(chunks[k..]), carry) == Lines(all)
    {
      var buffer := chunks[k];
      ghost var tail := Concat(chunks[k + 1..]);
      assert Concat(chunks[k..]) == buffer + tail by {
        assert chunks[k..][1..] == chunks[k + 1..];
      }
      assert buffer[0..] == buffer;
      LinesFromSplit(buffer, 0, tail, carry);
      var completed;
      carry, completed := ScanChunk(buffer, carry);
      words := words + completed;
      k := k + 1;
    }
    if carry != [] {
      var last := FlushLine(carry, []);
      assert carry + [] == carry;
      words := words + last;
    } else {
      assert Emit(carry) == [];
    }
  }
}
