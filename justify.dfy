/**
 * The fixed-width justifier. The input buffer is broken into rows of at
 * most `line_width` characters without cutting a word (count_lines counts
 * the rows, divide_input fills them, padded with spaces, into buffers of
 * exactly `line_width` characters), and each row is printed justified:
 * a lone word centred, otherwise the spare spaces spread over the space
 * runs. The printed text is modelled as the string the methods return.
 */
module Justify {
  import opened Wrappers

  /** count_lines' exit path: a word longer than the line. */
  datatype Error = WordTooLong

  /** One row of the input: it starts at `start` and the break after it is
      at `cut` (the row holds the characters in [start, cut)). */
  datatype Row = Row(start: nat, cut: nat)

  predicate IsDelimiter(c: char) {
    c == ' ' || c == '-'
  }

  /** A run of `n` spaces; none when `n` is not positive (a `for` loop that
      prints a space `n` times). */
  function Spaces(n: int): (r: string)
    ensures |r| == if n <= 0 then 0 else n
    ensures forall k :: 0 <= k < |r| ==> r[k] == ' '
  {
    if n <= 0 then [] else seq(n, _ => ' ')
  }

  lemma SpacesSnoc(n: nat)
    ensures Spaces(n + 1) == Spaces(n) + " "
  {
  }

  /** The byte at index `i` of the buffer `s`, where index |s| is the byte
      just past it (`beyond`), which count_lines reads at a1.c:24 when a row
      reaches the end of the buffer exactly. */
  function At(s: seq<char>, i: nat, beyond: char): char {
    if i < |s| then s[i] else beyond
  }

  /** How far a row starting at `st` can fill: `w` characters or up to the
      end of the text. */
  function WindowEnd(s: seq<char>, st: nat, w: nat): (e: nat)
    requires st <= |s|
    ensures st <= e <= |s| && e <= st + w
    ensures e == st + w || e == |s|
  {
    if st + w <= |s| then st + w else |s|
  }

  /** The backward scan for a delimiter: the last space or hyphen in
      (st, t], or `st` when there is none. */
  function Backtrack(s: seq<char>, st: nat, t: nat): (r: nat)
    requires st <= t < |s|
    ensures st <= r <= t
    ensures r > st ==> IsDelimiter(s[r])
    ensures forall k :: r < k <= t ==> !IsDelimiter(s[k])
    decreases t
  {
    if t > st && !IsDelimiter(s[t]) then Backtrack(s, st, t - 1) else t
  }

  /** The first index at or after `p` that is not a space. */
  function SkipSpaces(s: seq<char>, p: nat): (q: nat)
    requires p <= |s|
    ensures p <= q <= |s|
    ensures forall k :: p <= k < q ==> s[k] == ' '
    ensures q < |s| ==> s[q] != ' '
    decreases |s| - p
  {
    if p < |s| && s[p] == ' ' then SkipSpaces(s, p + 1) else p
  }

  /** The loop both count_lines and divide_input run after a break: skip
      the spaces so the next row starts with a word. */
  method SkipBlanks(arr: array<char>, size: nat, p: nat) returns (q: nat)
    requires p <= size <= arr.Length
    ensures q == SkipSpaces(arr[..size], p)
  {
    q := p;
    while q < size && arr[q] == ' '
      invariant p <= q <= size
      invariant SkipSpaces(arr[..size], p) == SkipSpaces(arr[..size], q)
      decreases size - q
    {
      q := q + 1;
    }
  }

  // ---------------------------------------------------------------------
  // count_lines

  /** Where count_lines breaks the row that starts at `st`: after a full
      row whose next byte is not a space or hyphen it backs up to the last
      space, or to just after the last hyphen, and fails when the row holds
      neither. */
  function NextBreak(s: seq<char>, st: nat, w: nat, beyond: char): (r: Result<nat, Error>)
    requires st < |s| && w >= 1
    ensures r.Success? ==> st < r.value <= st + w && r.value <= |s|
  {
    var e := WindowEnd(s, st, w);
    if e - st == w && !IsDelimiter(At(s, e, beyond)) then
      var t := Backtrack(s, st, e - 1);
      if s[t] == '-' && t > st then Success(t + 1)
      else if t == st then Failure(WordTooLong)
      else Success(t)
    else Success(e)
  }

  /** The rows count_lines walks through from `st`: each row is broken by
      NextBreak and the spaces after the break are skipped. */
  function Rows(s: seq<char>, st: nat, w: nat, beyond: char): Result<seq<Row>, Error>
    requires st <= |s| && w >= 1
    decreases |s| - st
  {
    if st == |s| then Success([])
    else
      match NextBreak(s, st, w, beyond)
      case Failure(e) => Failure(e)
      case Success(cut) =>
        match Rows(s, SkipSpaces(s, cut), w, beyond)
        case Failure(e) => Failure(e)
        case Success(rest) => Success([Row(st, cut)] + rest)
  }

  /** A break never falls inside a word: the byte after it is a space or a
      hyphen, or the byte before it is a hyphen. The row is cut short only
      back to the last delimiter, and the break fails exactly when a full
      row is followed by a word character and holds no delimiter after its
      first character. */
  lemma NextBreakCut(s: seq<char>, st: nat, w: nat, beyond: char)
    requires st < |s| && w >= 1
    ensures NextBreak(s, st, w, beyond).Success? ==>
              var cut := NextBreak(s, st, w, beyond).value;
              && (cut < |s| ==> IsDelimiter(s[cut]) || s[cut - 1] == '-')
              && (forall k :: cut < k < st + w && k < |s| ==> !IsDelimiter(s[k]))
    ensures NextBreak(s, st, w, beyond).Failure? <==>
              && st + w <= |s|
              && !IsDelimiter(At(s, st + w, beyond))
              && (forall k :: st < k < st + w ==> !IsDelimiter(s[k]))
  {
    var e := WindowEnd(s, st, w);
    if e - st == w && !IsDelimiter(At(s, e, beyond)) {
      var t := Backtrack(s, st, e - 1);
      if t == st {
        assert forall k :: st < k < st + w ==> !IsDelimiter(s[k]);
      }
    }
  }

  /** The rows count_lines walks through start at `st`, follow one another
      with only the skipped spaces between them, each start (after the
      first) on a non-space, each at most `w` long and broken by NextBreak,
      and together they reach the end of the buffer. */
  lemma {:induction false} RowsCover(s: seq<char>, st: nat, w: nat, beyond: char)
    requires st <= |s| && w >= 1
    requires Rows(s, st, w, beyond).Success?
    ensures var rs := Rows(s, st, w, beyond).value;
      && (rs == [] <==> st == |s|)
      && (rs != [] ==> rs[0].start == st)
      && (forall i :: 0 <= i < |rs| ==>
            rs[i].start < |s| && NextBreak(s, rs[i].start, w, beyond) == Success(rs[i].cut))
      && (forall i :: 0 <= i < |rs| ==> rs[i].start < rs[i].cut <= rs[i].start + w)
      && (forall i :: 0 <= i < |rs| - 1 ==> rs[i + 1].start == SkipSpaces(s, rs[i].cut))
      && (forall i :: 0 < i < |rs| ==> s[rs[i].start] != ' ')
      && (rs != [] ==> SkipSpaces(s, rs[|rs| - 1].cut) == |s|)
    decreases |s| - st
  {
    if st < |s| {
      var cut := NextBreak(s, st, w, beyond).value;
      var next := SkipSpaces(s, cut);
      RowsCover(s, next, w, beyond);
      var rest := Rows(s, next, w, beyond).value;
      var rs := Rows(s, st, w, beyond).value;
      assert rs == [Row(st, cut)] + rest;
      assert forall i :: 0 < i < |rs| ==> rs[i] == rest[i - 1];
    }
  }

  /** The row loop body of count_lines up to the break: fill the row, and
      after a full row followed by a word character back up to a space or
      to just after a hyphen, failing when there is neither. */
  method BreakRow(arr: array<char>, start: nat, w: int, beyond: char) returns (r: Result<nat, Error>)
    requires start < arr.Length && w >= 1
    ensures r == NextBreak(arr[..], start, w, beyond)
  {
    ghost var s := arr[..];
    var charCount := 0;
    var pos := start;
    while charCount < w && pos < arr.Length
      invariant start <= pos <= arr.Length
      invariant charCount == pos - start <= w
      decreases w - charCount
    {
      charCount := charCount + 1;
      pos := pos + 1;
    }
    assert pos == WindowEnd(s, start, w);
    var next := if pos < arr.Length then arr[pos] else beyond;
    if charCount == w && next != ' ' && next != '-' {
      var temp := pos;
      while temp > start && !IsDelimiter(if temp < arr.Length then arr[temp] else beyond)
        invariant start <= temp <= pos
        invariant temp == pos ==> !IsDelimiter(At(s, pos, beyond))
        invariant temp < pos ==> Backtrack(s, start, pos - 1) == Backtrack(s, start, temp)
        decreases temp
      {
        temp := temp - 1;
      }
      assert temp < pos && temp == Backtrack(s, start, pos - 1);
      if arr[temp] == '-' && temp > start {
        return Success(temp + 1);
      } else if temp == start {
        return Failure(WordTooLong);
      } else {
        return Success(temp);
      }
    }
    return Success(pos);
  }

  /** count_lines: the number of rows the buffer breaks into, or the error
      for a word longer than the line. `beyond` stands for the byte just
      past the buffer. */
  method CountLines(arr: array<char>, w: int, beyond: char) returns (r: Result<nat, Error>)
    requires w >= 1
    ensures r.Success? <==> Rows(arr[..], 0, w, beyond).Success?
    ensures r.Success? ==> r.value == |Rows(arr[..], 0, w, beyond).value|
  {
    ghost var s := arr[..];
    var numLines := 0;
    var pos := 0;
    while pos < arr.Length
      invariant 0 <= pos <= arr.Length
      invariant Rows(s, 0, w, beyond).Success? <==> Rows(s, pos, w, beyond).Success?
      invariant Rows(s, pos, w, beyond).Success? ==>
                  |Rows(s, 0, w, beyond).value| == numLines + |Rows(s, pos, w, beyond).value|
      decreases arr.Length - pos
    {
      var brk := BreakRow(arr, pos, w, beyond);
      if brk.Failure? {
        return Failure(WordTooLong);
      }
      var cut := brk.value;
      ghost var rest := Rows(s, SkipSpaces(s, cut), w, beyond);
      assert Rows(s, pos, w, beyond) ==
        if rest.Failure? then Failure(rest.error) else Success([Row(pos, cut)] + rest.value);
      numLines := numLines + 1;
      assert arr[..arr.Length] == s;
      pos := SkipBlanks(arr, arr.Length, cut);
    }
    return Success(numLines);
  }

  // ---------------------------------------------------------------------
  // divide_input

  /** The text divide_input works on: the buffer without one final
      newline. */
  function InputText(s: seq<char>): seq<char>
    requires |s| >= 1
  {
    if s[|s| - 1] == '\n' then s[..|s| - 1] else s
  }

  /** Where divide_input ends the row that starts at `st`: when the window
      stops before a non-space it backs up from the window's last
      character to a space, or to just after a hyphen (the row is empty
      when it finds neither). */
  function RowEnd(t: seq<char>, st: nat, w: nat): (r: nat)
    requires st <= |t| && w >= 1
    ensures st <= r <= st + w && r <= |t|
  {
    var e := WindowEnd(t, st, w);
    if e < |t| && t[e] != ' ' then
      var b := Backtrack(t, st, e - 1);
      if t[b] == '-' then b + 1 else b
    else e
  }

  /** Where divide_input's row `i` starts: the first row at the start of
      the text, every later one after the spaces that follow the end of the
      row before it. */
  function RowStart(t: seq<char>, w: nat, i: nat): (p: nat)
    requires w >= 1
    ensures p <= |t|
    decreases i
  {
    if i == 0 then 0 else SkipSpaces(t, RowEnd(t, RowStart(t, w, i - 1), w))
  }

  /** The segment of row `i`: from its start to RowEnd. */
  function RowAt(t: seq<char>, w: nat, i: nat): (c: Row)
    requires w >= 1
    ensures c.start <= c.cut <= |t| && c.cut - c.start <= w
  {
    var st := RowStart(t, w, i);
    Row(st, RowEnd(t, st, w))
  }

  /** The segments of the `k` rows divide_input fills. */
  function Divided(t: seq<char>, w: nat, k: nat): (cs: seq<Row>)
    requires w >= 1
    ensures |cs| == k
    ensures forall i :: 0 <= i < k ==> cs[i] == RowAt(t, w, i)
    decreases k
  {
    if k == 0 then [] else Divided(t, w, k - 1) + [RowAt(t, w, k - 1)]
  }

  /** One row buffer: the copied segment, padded on the right with spaces
      to exactly `w` characters. */
  function RowText(t: seq<char>, c: Row, w: nat): (r: seq<char>)
    requires c.start <= c.cut <= |t| && c.cut - c.start <= w
    ensures |r| == w
  {
    t[c.start..c.cut] + Spaces(w - (c.cut - c.start))
  }

  /** Every segment of `cs` lies inside `t` and fits a row of `w`. */
  predicate Segments(t: seq<char>, cs: seq<Row>, w: nat) {
    forall k :: 0 <= k < |cs| ==> cs[k].start <= cs[k].cut <= |t| && cs[k].cut - cs[k].start <= w
  }

  /** The buffers of the segments `cs`, in order. */
  function RowTexts(t: seq<char>, cs: seq<Row>, w: nat): (rs: seq<seq<char>>)
    requires Segments(t, cs, w)
    ensures |rs| == |cs|
    decreases |cs|
  {
    if cs == [] then [] else RowTexts(t, cs[..|cs| - 1], w) + [RowText(t, cs[|cs| - 1], w)]
  }

  /** Appending a segment appends its buffer. */
  lemma RowTextsSnoc(t: seq<char>, cs: seq<Row>, c: Row, w: nat)
    requires Segments(t, cs, w) && c.start <= c.cut <= |t| && c.cut - c.start <= w
    ensures Segments(t, cs + [c], w)
    ensures RowTexts(t, cs + [c], w) == RowTexts(t, cs, w) + [RowText(t, c, w)]
  {
    assert (cs + [c])[..|cs|] == cs;
  }

  lemma {:induction false} RowTextsAt(t: seq<char>, cs: seq<Row>, w: nat, i: nat)
    requires Segments(t, cs, w) && i < |cs|
    ensures RowTexts(t, cs, w)[i] == RowText(t, cs[i], w)
    decreases |cs|
  {
    var init := cs[..|cs| - 1];
    if i < |cs| - 1 {
      RowTextsAt(t, init, w, i);
      assert init[i] == cs[i];
    }
  }

  /** A row buffer starts with its segment and is blank after it. */
  lemma RowTextContents(t: seq<char>, c: Row, w: nat)
    requires c.start <= c.cut <= |t| && c.cut - c.start <= w
    ensures RowText(t, c, w)[..c.cut - c.start] == t[c.start..c.cut]
    ensures forall k :: c.cut - c.start <= k < w ==> RowText(t, c, w)[k] == ' '
  {
    var r := RowText(t, c, w);
    assert r[..c.cut - c.start] == t[c.start..c.cut];
  }

  /** A divide_input row ends at a space, just after a hyphen, at the end
      of the text, or (when the backward scan finds no delimiter) right
      where it starts; it is cut short only back to the last delimiter. */
  lemma RowEndCut(t: seq<char>, st: nat, w: nat)
    requires st <= |t| && w >= 1
    ensures var end := RowEnd(t, st, w);
      && (end < |t| ==> t[end] == ' ' || (end > 0 && t[end - 1] == '-') || end == st)
      && (forall k :: end < k < st + w && k < |t| ==> !IsDelimiter(t[k]))
  {
  }

  /** The rows of divide_input start at the start of the text and follow
      one another with only skipped spaces between them, each a segment of
      at most `w` characters ended by RowEnd. */
  lemma DividedShape(t: seq<char>, w: nat, k: nat)
    requires w >= 1
    ensures var cs := Divided(t, w, k);
      && (k > 0 ==> cs[0].start == 0)
      && (forall i :: 0 <= i < k ==>
            cs[i].start <= cs[i].cut <= |t| && cs[i].cut - cs[i].start <= w
            && cs[i].cut == RowEnd(t, cs[i].start, w))
      && (forall i :: 0 <= i < k - 1 ==> cs[i + 1].start == SkipSpaces(t, cs[i].cut))
  {
    var cs := Divided(t, w, k);
    forall i | 0 <= i < k - 1
      ensures cs[i + 1].start == SkipSpaces(t, cs[i].cut)
    {
      assert cs[i + 1].start == RowStart(t, w, i + 1);
    }
  }

  /** Every row divide_input fills after the first one starts with a word,
      or holds no word at all. */
  lemma DividedRowsStartWithWord(t: seq<char>, w: nat, k: nat, i: nat)
    requires w >= 1 && 0 < i < k
    ensures var cs := Divided(t, w, k);
      cs[i].start <= cs[i].cut <= |t| && cs[i].cut - cs[i].start <= w
    ensures var text := RowText(t, Divided(t, w, k)[i], w);
      text[0] != ' ' || forall j :: 0 <= j < w ==> text[j] == ' '
  {
    DividedShape(t, w, k);
    var cs := Divided(t, w, k);
    assert cs[i].start == SkipSpaces(t, cs[i - 1].cut);
    RowTextContents(t, cs[i], w);
  }

  /** count_lines and divide_input can disagree about the rows. In "abc-"
      with width 3, count_lines sees the hyphen after the full window as a
      delimiter and counts the rows "abc" and "-", while divide_input backs
      up only when the next byte is not a space, finds no delimiter before
      the window's start and leaves both rows empty: the second one starts
      where the first did. */
  lemma CountAndDivideDisagree(beyond: char)
    ensures Rows("abc-", 0, 3, beyond) == Success([Row(0, 3), Row(3, 4)])
    ensures InputText("abc-") == "abc-"
    ensures Divided("abc-", 3, 2) == [Row(0, 0), Row(0, 0)]
    ensures RowTexts("abc-", Divided("abc-", 3, 2), 3) == ["   ", "   "]
  {
    HyphenEndRows(beyond);
    HyphenEndDivided();
  }

  /** The rows count_lines walks through in "abc-" at width 3. */
  lemma HyphenEndRows(beyond: char)
    ensures Rows("abc-", 0, 3, beyond) == Success([Row(0, 3), Row(3, 4)])
  {
    var s := "abc-";
    assert NextBreak(s, 0, 3, beyond) == Success(3) && SkipSpaces(s, 3) == 3;
    assert NextBreak(s, 3, 3, beyond) == Success(4) && SkipSpaces(s, 4) == 4;
    assert Rows(s, 4, 3, beyond) == Success([]);
    assert Rows(s, 3, 3, beyond).value == [Row(3, 4)];
    assert Rows(s, 0, 3, beyond).value == [Row(0, 3)] + [Row(3, 4)];
    assert Rows(s, 0, 3, beyond).value == [Row(0, 3), Row(3, 4)];
  }

  /** The rows divide_input fills from "abc-" at width 3. */
  lemma HyphenEndDivided()
    ensures Divided("abc-", 3, 2) == [Row(0, 0), Row(0, 0)]
    ensures RowTexts("abc-", Divided("abc-", 3, 2), 3) == ["   ", "   "]
  {
    var s := "abc-";
    assert Backtrack(s, 0, 2) == 0;
    assert RowAt(s, 3, 0) == Row(0, 0);
    assert SkipSpaces(s, 0) == 0;
    assert RowAt(s, 3, 1) == Row(0, 0);
    assert Divided(s, 3, 2) == [Row(0, 0), Row(0, 0)];
    assert RowText(s, Row(0, 0), 3) == "   ";
  }

  /** The row-end search of divide_input over the first `fileSize` bytes
      of the buffer: fill the window, then back up when it stops before a
      non-space. */
  method FindRowEnd(arr: array<char>, fileSize: nat, start: nat, w: int) returns (end: nat)
    requires start <= fileSize <= arr.Length && w >= 1
    ensures end == RowEnd(arr[..fileSize], start, w)
  {
    ghost var t := arr[..fileSize];
    var charCount := 0;
    end := start;
    while charCount < w && end < fileSize
      invariant start <= end <= fileSize
      invariant charCount == end - start <= w
      decreases w - charCount
    {
      charCount := charCount + 1;
      end := end + 1;
    }
    assert end == WindowEnd(t, start, w);
    if end < fileSize && arr[end] != ' ' {
      var temp := end - 1;
      while temp > start && arr[temp] != ' ' && arr[temp] != '-'
        invariant start <= temp < end
        invariant Backtrack(t, start, end - 1) == Backtrack(t, start, temp)
        decreases temp
      {
        temp := temp - 1;
      }
      if arr[temp] == '-' {
        end := temp + 1;
      } else {
        end := temp;
      }
    }
  }

  lemma SliceOfPrefix(s: seq<char>, n: nat, a: nat, b: nat)
    requires a <= b <= n <= |s|
    ensures s[..n][a..b] == s[a..b]
  {
  }

  /** The copy of divide_input: a fresh buffer of `w` characters holding the
      segment [start, end) of the input, then spaces. */
  method FillRow(arr: array<char>, start: nat, end: nat, w: nat) returns (row: array<char>)
    requires start <= end <= arr.Length && end - start <= w
    ensures fresh(row) && row[..] == arr[start..end] + Spaces(w - (end - start))
  {
    row := new char[w];
    var src, dst := start, 0;
    while src < end
      invariant start <= src <= end && dst == src - start
      invariant row[..dst] == arr[start..src]
      modifies row
    {
      row[dst] := arr[src];
      src, dst := src + 1, dst + 1;
    }
    while dst < w
      invariant end - start <= dst <= w
      invariant row[..dst] == arr[start..end] + Spaces(dst - (end - start))
      modifies row
    {
      SpacesSnoc(dst - (end - start));
      row[dst] := ' ';
      dst := dst + 1;
    }
    assert row[..] == row[..dst];
  }

  /** One pass of divide_input's row loop: the buffer of row `i` of the
      text `t`, which starts at `start`, and where row `i + 1` starts. */
  method DivideRow(arr: array<char>, fileSize: nat, start: nat, w: int, ghost t: seq<char>, ghost i: nat)
      returns (row: array<char>, next: nat)
    requires fileSize <= arr.Length && w >= 1
    requires t == arr[..fileSize] && start == RowStart(t, w, i)
    ensures fresh(row)
    ensures row[..] == RowText(t, RowAt(t, w, i), w)
    ensures next == RowStart(t, w, i + 1)
  {
    var end := FindRowEnd(arr, fileSize, start, w);
    row := FillRow(arr, start, end, w);
    SliceOfPrefix(arr[..], fileSize, start, end);
    next := SkipBlanks(arr, fileSize, end);
  }

  /** What divide_input has built after its first `i` rows: the buffers,
      their segments and their texts, and where row `i` starts. */
  ghost predicate Built(t: seq<char>, w: nat, i: nat, rows: seq<array<char>>, cuts: seq<Row>,
                        texts: seq<seq<char>>, pos: nat)
    requires w >= 1
    reads set k | 0 <= k < |rows| :: rows[k]
  {
    && |rows| == i
    && pos == RowStart(t, w, i)
    && cuts == Divided(t, w, i) && Segments(t, cuts, w)
    && texts == RowTexts(t, cuts, w)
    && forall k :: 0 <= k < i ==> rows[k][..] == texts[k]
  }

  /** No buffer appears twice among `rows`. */
  predicate Unshared(rows: seq<array<char>>) {
    forall k, l :: 0 <= k < l < |rows| ==> rows[k] != rows[l]
  }

  /** Appending a buffer that is not among `rows` keeps them unshared. */
  lemma UnsharedSnoc(rows: seq<array<char>>, row: array<char>)
    requires Unshared(rows) && row !in rows
    ensures Unshared(rows + [row])
  {
  }

  /** One turn of divide_input's row loop: fill row `i` and append it. */
  method DivideStep(arr: array<char>, fileSize: nat, w: int, ghost t: seq<char>, i: nat,
                    rows: seq<array<char>>, ghost cuts: seq<Row>, ghost texts: seq<seq<char>>, pos: nat)
      returns (rows': seq<array<char>>, ghost cuts': seq<Row>, ghost texts': seq<seq<char>>, pos': nat)
    requires fileSize <= arr.Length && w >= 1 && t == arr[..fileSize]
    requires Built(t, w, i, rows, cuts, texts, pos)
    ensures Built(t, w, i + 1, rows', cuts', texts', pos')
    ensures rows' == rows + [rows'[i]] && fresh(rows'[i])
  {
    var row, next := DivideRow(arr, fileSize, pos, w, t, i);
    ghost var c := RowAt(t, w, i);
    RowTextsSnoc(t, cuts, c, w);
    rows', texts', cuts', pos' := rows + [row], texts + [row[..]], cuts + [c], next;
  }

  /** The row loop of divide_input: the buffers of the first `numLines`
      rows of the text `t`, in order. */
  method DivideRows(arr: array<char>, fileSize: nat, w: int, numLines: nat, ghost t: seq<char>)
      returns (rows: seq<array<char>>, ghost cuts: seq<Row>, ghost texts: seq<seq<char>>)
    requires fileSize <= arr.Length && w >= 1 && t == arr[..fileSize]
    ensures |rows| == numLines && cuts == Divided(t, w, numLines) && Segments(t, cuts, w)
    ensures texts == RowTexts(t, cuts, w)
    ensures forall k :: 0 <= k < numLines ==> rows[k][..] == texts[k]
    ensures Unshared(rows) && forall k :: 0 <= k < numLines ==> fresh(rows[k])
  {
    rows, cuts, texts := [], [], [];
    var pos: nat := 0;
    for i := 0 to numLines
      invariant Built(t, w, i, rows, cuts, texts, pos)
      invariant Unshared(rows) && forall k :: 0 <= k < i ==> fresh(rows[k])
    {
      ghost var before := rows;
      rows, cuts, texts, pos := DivideStep(arr, fileSize, w, t, i, rows, cuts, texts, pos);
      assert rows[i] !in before;
      UnsharedSnoc(before, rows[i]);
      forall k | 0 <= k < i + 1
        ensures fresh(rows[k])
      {
        if k < i {
          assert rows[k] == before[k];
        }
      }
    }
  }

  /** The array of row pointers divide_input allocates, holding `rows`. */
  method RowBuffers(rows: seq<array<char>>) returns (lines: array<array<char>>)
    ensures fresh(lines) && lines[..] == rows
  {
    lines := new array<char>[|rows|](k requires 0 <= k < |rows| => rows[k]);
    assert lines[..] == rows;
  }

  /** divide_input: `numLines` row buffers of `w` characters, each newly
      allocated and none shared between rows, each the next segment of the
      text (without its final newline) padded with spaces. */
  method DivideInput(arr: array<char>, w: int, numLines: nat) returns (lines: array<array<char>>)
    requires arr.Length >= 1 && w >= 1
    ensures fresh(lines) && lines.Length == numLines
    ensures forall i :: 0 <= i < numLines ==> fresh(lines[i])
    ensures forall i, j :: 0 <= i < j < numLines ==> lines[i] != lines[j]
    ensures var t := InputText(arr[..]);
      forall i :: 0 <= i < numLines ==>
        var c := Divided(t, w, numLines)[i];
        c.start <= c.cut <= |t| && c.cut - c.start <= w && lines[i][..] == RowText(t, c, w)
  {
    var fileSize := arr.Length;
    if arr[fileSize - 1] == '\n' {
      fileSize := fileSize - 1;
    }
    ghost var t := arr[..fileSize];
    assert t == InputText(arr[..]);
    var rows, cuts, texts := DivideRows(arr, fileSize, w, numLines, t);
    lines := RowBuffers(rows);
    forall i, j | 0 <= i < j < numLines
      ensures lines[i] != lines[j]
    {
      assert lines[i] == rows[i] && lines[j] == rows[j];
    }
    forall k | 0 <= k < numLines
      ensures lines[k][..] == RowText(t, cuts[k], w)
    {
      assert lines[k] == rows[k];
      RowTextsAt(t, cuts, w, k);
    }
  }

  // ---------------------------------------------------------------------
  // justify_rows

  /** The non-space characters of a row, in order. */
  function NonSpaces(r: seq<char>): (n: seq<char>)
    ensures |n| <= |r|
    ensures forall k :: 0 <= k < |n| ==> n[k] != ' '
  {
    if r == [] then []
    else (if r[0] != ' ' then [r[0]] else []) + NonSpaces(r[1..])
  }

  /** justify_rows' `char_count`: the number of non-space characters. */
  function CharCount(r: seq<char>): nat {
    |NonSpaces(r)|
  }

  /** The number of words of `r` (maximal non-space runs) that start in it,
      when the character before it was a space (`afterSpace`) or not. */
  function WordStarts(r: seq<char>, afterSpace: bool): nat {
    if r == [] then 0
    else (if r[0] != ' ' && afterSpace then 1 else 0) + WordStarts(r[1..], r[0] == ' ')
  }

  /** justify_rows' `word_count`: a word starts at the row's first
      character or after a space. */
  function WordCount(r: seq<char>): nat {
    WordStarts(r, true)
  }

  /** The number of maximal space runs that start in `r`, when the
      character before it was a space (`inRun`) or not. */
  function SpaceRuns(r: seq<char>, inRun: bool): nat {
    if r == [] then 0
    else (if r[0] == ' ' && !inRun then 1 else 0) + SpaceRuns(r[1..], r[0] == ' ')
  }

  /** A multi-word row as printed: every non-space character as it is, and
      each maximal space run replaced by `q` spaces, plus one more while
      `extra` is still positive. */
  function Expand(r: seq<char>, q: int, extra: int, inRun: bool): string {
    if r == [] then []
    else if r[0] != ' ' then [r[0]] + Expand(r[1..], q, extra, false)
    else if inRun then Expand(r[1..], q, extra, true)
    else Spaces(q) + (if extra > 0 then " " else "") + Expand(r[1..], q, if extra > 0 then extra - 1 else extra, true)
  }

  /** What justify_rows prints for one row, without the newline. The
      divisions have a non-negative dividend, so C's truncating `/` and `%`
      agree with Dafny's also for the divisor -1 of a row without words. */
  function JustifiedRow(r: seq<char>): string {
    var cc := CharCount(r);
    var wc := WordCount(r);
    var total := |r| - cc;
    if wc == 1 then Spaces(total / 2 + total % 2) + r[..cc] + Spaces(total / 2)
    else Expand(r, total / (wc - 1), total % (wc - 1), false)
  }

  /** What justify_rows prints for all rows: each justified row followed by
      a newline. */
  function Justified(rows: seq<seq<char>>): string
    decreases |rows|
  {
    if rows == [] then []
    else Justified(rows[..|rows| - 1]) + JustifiedRow(rows[|rows| - 1]) + "\n"
  }

  /** The counting loop of justify_rows over one row buffer. */
  method CountRow(row: array<char>) returns (charCount: nat, wordCount: nat)
    ensures charCount == CharCount(row[..]) && wordCount == WordCount(row[..])
  {
    charCount, wordCount := 0, 0;
    assert row[0..] == row[..];
    for j := 0 to row.Length
      invariant charCount + CharCount(row[j..]) == CharCount(row[..])
      invariant wordCount + WordStarts(row[j..], j == 0 || row[j - 1] == ' ') == WordCount(row[..])
    {
      assert row[j..][1..] == row[j + 1..];
      if row[j] != ' ' {
        charCount := charCount + 1;
        if j == 0 || row[j - 1] == ' ' {
          wordCount := wordCount + 1;
        }
      }
    }
  }

  /** The single-word branch of justify_rows: ⌈spare/2⌉ spaces, the first
      `char_count` characters of the row, ⌊spare/2⌋ spaces. */
  method PrintCentred(row: array<char>, charCount: nat) returns (text: string)
    requires charCount == CharCount(row[..]) && WordCount(row[..]) == 1
    ensures text == JustifiedRow(row[..])
  {
    ghost var r := row[..];
    var totalSpaces := row.Length - charCount;
    var leftSpaces := totalSpaces / 2 + totalSpaces % 2;
    var rightSpaces := totalSpaces / 2;
    assert JustifiedRow(r) == Spaces(leftSpaces) + r[..charCount] + Spaces(rightSpaces);
    text := [];
    for j := 0 to leftSpaces
      invariant text == Spaces(j)
    {
      SpacesSnoc(j);
      text := text + " ";
    }
    for j := 0 to charCount
      invariant text == Spaces(leftSpaces) + r[..j]
    {
      assert r[..j + 1] == r[..j] + [row[j]];
      text := text + [row[j]];
    }
    ghost var mid := text;
    for j := 0 to rightSpaces
      invariant text == mid + Spaces(j)
    {
      SpacesSnoc(j);
      text := text + " ";
    }
  }

  /** What the multi-word branch of justify_rows prints for one space run:
      `q` spaces, and one more while extra spaces are left. */
  method PrintGap(q: int, extra: int) returns (gap: string, extraLeft: int)
    ensures gap == Spaces(q) + (if extra > 0 then " " else "")
    ensures extraLeft == if extra > 0 then extra - 1 else extra
  {
    gap := [];
    var k := 0;
    while k < q
      invariant k >= 0 && (q >= 0 ==> k <= q) && (q < 0 ==> k == 0)
      invariant gap == Spaces(k)
      decreases q - k
    {
      SpacesSnoc(k);
      gap := gap + " ";
      k := k + 1;
    }
    if q < 0 {
      assert Spaces(k) == Spaces(q);
    }
    extraLeft := extra;
    if extraLeft > 0 {
      gap := gap + " ";
      extraLeft := extraLeft - 1;
    }
  }

  /** The inner loop of justify_rows' multi-word branch: from the space
      at `j`, move to the last space of its run. The rest of the run prints
      nothing. */
  method SkipRun(row: array<char>, j: nat, ghost q: int, ghost extra: int) returns (k: nat)
    requires j < row.Length
    ensures j <= k < row.Length
    ensures k + 1 < row.Length ==> row[k + 1] != ' '
    ensures forall i :: j < i <= k ==> row[i] == ' '
    ensures Expand(row[j + 1..], q, extra, true) == Expand(row[k + 1..], q, extra, false)
  {
    k := j;
    while k < row.Length - 1 && row[k + 1] == ' '
      invariant j <= k < row.Length
      invariant forall i :: j < i <= k ==> row[i] == ' '
      invariant Expand(row[j + 1..], q, extra, true) == Expand(row[k + 1..], q, extra, true)
      decreases row.Length - k
    {
      assert row[k + 1..][0] == ' ' && row[k + 1..][1..] == row[k + 2..];
      k := k + 1;
    }
    if k + 1 < row.Length {
      assert row[k + 1..][0] != ' ' && row[k + 1..][1..] == row[k + 2..];
    }
  }

  /** Where the multi-word branch of justify_rows stands at index `j`: the
      text printed so far followed by the expansion of the rest is the
      whole justified row, and `j` never stops inside a space run. */
  ghost predicate Spreading(r: seq<char>, q: int, whole: string, text: string, j: nat, extra: int) {
    && j <= |r|
    && (j < |r| && r[j] == ' ' ==> j == 0 || r[j - 1] != ' ')
    && text + Expand(r[j..], q, extra, false) == whole
  }

  /** One turn of the multi-word loop: print the character at `j`, or the
      gap for the space run starting there and skip the run. */
  method SpreadStep(row: array<char>, q: int, ghost whole: string, text: string, j: nat, extra: int)
      returns (text': string, j': nat, extra': int)
    requires j < row.Length && Spreading(row[..], q, whole, text, j, extra)
    ensures j < j' && Spreading(row[..], q, whole, text', j', extra')
  {
    ghost var r := row[..];
    assert r[j..][0] == r[j] && r[j..][1..] == r[j + 1..];
    if row[j] != ' ' {
      assert Expand(r[j..], q, extra, false) == [r[j]] + Expand(r[j + 1..], q, extra, false);
      text', extra' := text + [row[j]], extra;
      j' := j + 1;
    } else {
      var gap, extraLeft := PrintGap(q, extra);
      assert Expand(r[j..], q, extra, false) == gap + Expand(r[j + 1..], q, extraLeft, true);
      text', extra' := text + gap, extraLeft;
      var k := SkipRun(row, j, q, extraLeft);
      j' := k + 1;
    }
  }

  /** The multi-word branch of justify_rows: the row's characters in order,
      each space run printed as PrintGap's spaces. */
  method PrintSpread(row: array<char>, charCount: nat, wordCount: nat) returns (text: string)
    requires charCount == CharCount(row[..]) && wordCount == WordCount(row[..]) && wordCount != 1
    ensures text == JustifiedRow(row[..])
  {
    var w := row.Length;
    var spacesRow := w - charCount;
    var spacesBetween := spacesRow / (wordCount - 1);
    var extraSpaces := spacesRow % (wordCount - 1);
    ghost var whole := Expand(row[..], spacesBetween, extraSpaces, false);
    assert JustifiedRow(row[..]) == whole;
    text := [];
    var j := 0;
    assert row[..][0..] == row[..];
    while j < w
      invariant Spreading(row[..], spacesBetween, whole, text, j, extraSpaces)
      decreases w - j
    {
      text, j, extraSpaces := SpreadStep(row, spacesBetween, whole, text, j, extraSpaces);
    }
    assert row[..][w..] == [];
  }

  /** justify_rows: every row printed justified, one line each. The ghost
      `rows` are the contents of the row buffers. */
  method JustifyRows(lines: array<array<char>>, w: int, ghost rows: seq<seq<char>>) returns (out: string)
    requires |rows| == lines.Length
    requires forall i :: 0 <= i < lines.Length ==> lines[i].Length == w && lines[i][..] == rows[i]
    ensures out == Justified(rows)
  {
    out := [];
    for i := 0 to lines.Length
      invariant out == Justified(rows[..i])
    {
      var charCount, wordCount := CountRow(lines[i]);
      var text;
      if wordCount == 1 {
        text := PrintCentred(lines[i], charCount);
      } else {
        text := PrintSpread(lines[i], charCount, wordCount);
      }
      assert rows[..i + 1][..i] == rows[..i];
      out := out + text + "\n";
    }
    assert rows[..lines.Length] == rows;
  }

  // ---------------------------------------------------------------------
  // Properties of the justified rows

  lemma {:induction false} NonSpacesOfSpaces(n: int, x: seq<char>)
    ensures NonSpaces(Spaces(n) + x) == NonSpaces(x)
    decreases if n <= 0 then 0 else n
  {
    if n <= 0 {
      assert Spaces(n) + x == x;
    } else {
      var y := Spaces(n) + x;
      assert y != [] && y[0] == ' ';
      assert y[1..] == Spaces(n - 1) + x;
      assert NonSpaces(y) == NonSpaces(y[1..]);
      NonSpacesOfSpaces(n - 1, x);
    }
  }

  /** A multi-word row prints the row's non-space characters unchanged and
      in order. */
  lemma {:induction false} ExpandKeepsText(r: seq<char>, q: int, extra: int, inRun: bool)
    ensures NonSpaces(Expand(r, q, extra, inRun)) == NonSpaces(r)
    decreases |r|
  {
    if r != [] {
      var e := if extra > 0 then extra - 1 else extra;
      if r[0] != ' ' {
        ExpandKeepsText(r[1..], q, extra, false);
        assert ([r[0]] + Expand(r[1..], q, extra, false))[1..] == Expand(r[1..], q, extra, false);
      } else if inRun {
        ExpandKeepsText(r[1..], q, extra, true);
      } else {
        ExpandKeepsText(r[1..], q, e, true);
        var pad := Spaces(q) + (if extra > 0 then " " else "");
        NonSpacesOfSpaces(if extra > 0 then (if q <= 0 then 1 else q + 1) else q, Expand(r[1..], q, e, true));
        assert Spaces(q) + (if extra > 0 then " " else "") == Spaces(if extra > 0 then (if q <= 0 then 1 else q + 1) else q);
      }
    }
  }

  /** A multi-word row is printed with each of its space runs widened to
      `q` spaces and the first `extra` of them to one more. */
  lemma {:induction false} ExpandLength(r: seq<char>, q: nat, extra: nat, inRun: bool)
    ensures var n := SpaceRuns(r, inRun);
      |Expand(r, q, extra, inRun)| == CharCount(r) + n * q + (if extra < n then extra else n)
    decreases |r|
  {
    if r != [] {
      if r[0] != ' ' {
        ExpandLength(r[1..], q, extra, false);
      } else if inRun {
        ExpandLength(r[1..], q, extra, true);
      } else {
        var e := if extra > 0 then extra - 1 else extra;
        ExpandLength(r[1..], q, e, true);
        var n := SpaceRuns(r[1..], true);
        assert SpaceRuns(r, false) == n + 1;
        assert (n + 1) * q == n * q + q;
        assert |Expand(r, q, extra, false)|
            == q + (if extra > 0 then 1 else 0) + |Expand(r[1..], q, e, true)|;
      }
    }
  }

  /** In a row that ends with a word, a word starts right after each space
      run, plus the first word when `afterSpace`. */
  lemma {:induction false} WordsAndRuns(r: seq<char>, afterSpace: bool)
    requires r != [] && r[|r| - 1] != ' '
    ensures WordStarts(r, afterSpace) == SpaceRuns(r, afterSpace) + (if afterSpace then 1 else 0)
    decreases |r|
  {
    if |r| > 1 {
      WordsAndRuns(r[1..], r[0] == ' ');
    }
  }

  lemma DivMod(a: nat, d: nat)
    requires d > 0
    ensures a / d >= 0 && 0 <= a % d < d && d * (a / d) + a % d == a
  {
  }

  /** A row with several words that starts and ends with a word is printed
      exactly as wide as the row: `spaces_row / (word_count - 1)` per gap
      and one more for the first `spaces_row % (word_count - 1)` gaps fill
      the spare spaces exactly. */
  lemma MultiWordRowWidth(r: seq<char>)
    requires WordCount(r) >= 2 && r[0] != ' ' && r[|r| - 1] != ' '
    ensures |JustifiedRow(r)| == |r|
    ensures NonSpaces(JustifiedRow(r)) == NonSpaces(r)
  {
    var cc := CharCount(r);
    var wc := WordCount(r);
    var total := |r| - cc;
    var d := wc - 1;
    var q, e := total / d, total % d;
    assert JustifiedRow(r) == Expand(r, q, e, false);
    DivMod(total, d);
    WordsAndRuns(r, false);
    WordsAndRuns(r, true);
    assert SpaceRuns(r, false) == d;
    ExpandLength(r, q, e, false);
    ExpandKeepsText(r, q, e, false);
  }

  /** A row with no word after a space has its non-space characters first
      and spaces after them. */
  lemma {:induction false} NoLaterWord(r: seq<char>, afterSpace: bool)
    requires WordStarts(r, afterSpace) == 0
    ensures afterSpace ==> NonSpaces(r) == [] && forall k :: 0 <= k < |r| ==> r[k] == ' '
    ensures r[..|NonSpaces(r)|] == NonSpaces(r)
    ensures forall k :: |NonSpaces(r)| <= k < |r| ==> r[k] == ' '
    decreases |r|
  {
    if r != [] {
      NoLaterWord(r[1..], r[0] == ' ');
      assert forall k :: 1 <= k < |r| ==> r[k] == r[1..][k - 1];
    }
  }

  /** A row holding one word that starts at its first character is printed
      as the word centred: ⌈(w − cc)/2⌉ spaces, the word, ⌊(w − cc)/2⌋
      spaces, exactly as wide as the row. */
  lemma SingleWordRow(r: seq<char>)
    requires WordCount(r) == 1 && r[0] != ' '
    ensures var total := |r| - CharCount(r);
      JustifiedRow(r) == Spaces(total / 2 + total % 2) + NonSpaces(r) + Spaces(total / 2)
    ensures |JustifiedRow(r)| == |r|
  {
    NoLaterWord(r[1..], false);
    assert NonSpaces(r) == [r[0]] + NonSpaces(r[1..]);
    assert r[..CharCount(r)] == [r[0]] + r[1..][..|NonSpaces(r[1..])|];
  }

  lemma {:induction false} NonSpacesAppend(a: seq<char>, b: seq<char>)
    ensures NonSpaces(a + b) == NonSpaces(a) + NonSpaces(b)
    decreases |a|
  {
    if a == [] {
      assert a + b == b;
    } else {
      assert (a + b)[0] == a[0] && (a + b)[1..] == a[1..] + b;
      NonSpacesAppend(a[1..], b);
    }
  }

  /** A row in which a word starts holds a non-space character. */
  lemma {:induction false} WordHasNonSpace(r: seq<char>, afterSpace: bool)
    requires WordStarts(r, afterSpace) > 0
    ensures NonSpaces(r) != []
    decreases |r|
  {
    if r[0] == ' ' {
      WordHasNonSpace(r[1..], true);
    }
  }

  /** A row holding one word after leading spaces is printed from its first
      `char_count` characters, leading spaces included: the printed row is
      as wide as the row, but those characters are not the row's word. */
  lemma SingleWordAfterSpaces(r: seq<char>)
    requires WordCount(r) == 1 && |r| > 0 && r[0] == ' '
    ensures var total := |r| - CharCount(r);
      JustifiedRow(r) == Spaces(total / 2 + total % 2) + r[..CharCount(r)] + Spaces(total / 2)
    ensures |JustifiedRow(r)| == |r|
    ensures CharCount(r) > 0 && r[..CharCount(r)] != NonSpaces(r)
  {
    var cc := CharCount(r);
    var total := |r| - cc;
    SingleWordPrinted(r);
    assert |JustifiedRow(r)| == |r| by {
      assert total / 2 + total % 2 + total / 2 == total;
    }
    WordHasNonSpace(r, true);
    assert r[..cc][0] == ' ' != NonSpaces(r)[0];
  }

  /** What justify_rows prints for a row holding one word. */
  lemma SingleWordPrinted(r: seq<char>)
    requires WordCount(r) == 1
    ensures var total := |r| - CharCount(r);
      JustifiedRow(r) == Spaces(total / 2 + total % 2) + r[..CharCount(r)] + Spaces(total / 2)
  {
  }

  /** Such a row shows fewer non-space characters than it holds, only a
      proper prefix of them: the end of the word is lost. */
  lemma SingleWordAfterSpacesLosesEnd(r: seq<char>)
    requires WordCount(r) == 1 && |r| > 0 && r[0] == ' '
    ensures var shown := NonSpaces(JustifiedRow(r));
      |shown| < CharCount(r) && shown == NonSpaces(r)[..|shown|]
  {
    var total := |r| - CharCount(r);
    SingleWordAfterSpaces(r);
    ShownOfCut(r, JustifiedRow(r), total / 2 + total % 2, CharCount(r), total / 2);
  }

  /** A row printed as the first `n` characters of `r`, padded with spaces,
      shows fewer than `n` non-space characters, the first ones of `r`,
      when `r` starts with a space. */
  lemma ShownOfCut(r: seq<char>, printed: seq<char>, a: int, n: nat, b: int)
    requires 0 < n <= |r| && r[0] == ' ' && printed == Spaces(a) + r[..n] + Spaces(b)
    ensures var shown := NonSpaces(printed);
      |shown| < n && |shown| <= |NonSpaces(r)| && shown == NonSpaces(r)[..|shown|]
  {
    PaddedNonSpaces(a, r[..n], b);
    CutAfterSpace(r, n);
  }

  /** Padding with spaces adds no non-space character. */
  lemma PaddedNonSpaces(a: int, x: seq<char>, b: int)
    ensures NonSpaces(Spaces(a) + x + Spaces(b)) == NonSpaces(x)
  {
    NonSpacesOfSpaces(a, x + Spaces(b));
    NonSpacesAppend(x, Spaces(b));
    NonSpacesOfSpaces(b, []);
    assert Spaces(b) + [] == Spaces(b);
    assert Spaces(a) + x + Spaces(b) == Spaces(a) + (x + Spaces(b));
  }

  /** The first `n` characters of a row that starts with a space hold
      fewer than `n` non-space characters, the first ones of the row. */
  lemma CutAfterSpace(r: seq<char>, n: nat)
    requires 0 < n <= |r| && r[0] == ' '
    ensures var c := NonSpaces(r[..n]);
      |c| < n && |c| <= |NonSpaces(r)| && c == NonSpaces(r)[..|c|]
  {
    var head := r[..n];
    assert NonSpaces(head) == NonSpaces(head[1..]);
    NonSpacesAppend(head, r[n..]);
    assert head + r[n..] == r;
    var c := NonSpaces(head);
    assert (c + NonSpaces(r[n..]))[..|c|] == c;
  }

  /** " ab " is printed as "  a ". An illustration only: SingleWordAfterSpaces
      and SingleWordAfterSpacesLosesEnd state this for every such row. */
  lemma SingleWordAfterSpacesExample()
    ensures JustifiedRow(" ab ") == "  a "
  {
    var r := " ab ";
    assert r[1..] == "ab " && r[1..][1..] == "b " && r[1..][1..][1..] == " ";
    assert " "[1..] == [];
    assert NonSpaces(r) == "ab";
    assert WordStarts(" ", false) == 0;
    assert WordStarts("b ", false) == 0;
    assert WordStarts("ab ", true) == 1;
    assert WordCount(r) == 1;
    assert r[..2] == " a";
  }
}
