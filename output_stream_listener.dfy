/**
 * `OutputStreamListener`: a byte output stream that, on every flush, keeps
 * the last complete non-empty line written to it, for display in the UI.
 * Bytes are kept as bytes: decoding them to a `String` is not modelled.
 */
module StreamListener {

  const NL: bv8 := 10
  const CR: bv8 := 13

  /**
   * Where the line that ends with the line feed at `i` stops. The source
   * assumes a carriage return before every line feed and always steps back
   * over one byte; `corrected` steps back only over a carriage return that
   * is there.
   */
  function RowEnd(text: seq<bv8>, i: int, corrected: bool): (e: int)
    requires 0 < i < |text|
    ensures i - 1 <= e <= i
    ensures e == i - 1 <==> !corrected || text[i - 1] == CR
  {
    if !corrected || text[i - 1] == CR then i - 1 else i
  }

  /**
   * The backward scan of `flush()`, from index `i` with the line end found
   * so far at `end` (`|text|` while no line feed has been seen). It gives
   * the start and end of the row `flush()` shows.
   */
  function Scan(text: seq<bv8>, i: int, end: int, corrected: bool): (r: (int, int))
    requires 0 <= i < |text| && end <= |text|
    requires end == |text| || i <= end
    ensures 0 <= r.0 <= r.1 <= |text|
    decreases i
  {
    if i == 0 then (0, end)
    else if text[i] == NL && end == |text| then Scan(text, i - 1, RowEnd(text, i, corrected), corrected)
    else if text[i] == NL && end - i > 1 then (i + 1, end)
    else Scan(text, i - 1, end, corrected)
  }

  /** The row `flush()` shows for the bytes written so far. */
  function LastRow(text: seq<bv8>, corrected: bool): (r: (int, int))
    requires text != []
    ensures 0 <= r.0 <= r.1 <= |text|
  {
    Scan(text, |text| - 1, |text|, corrected)
  }

  /** Scanning back over bytes that are not line feeds changes nothing. */
  lemma {:induction false} ScanSkips(text: seq<bv8>, i: int, lo: int, end: int, corrected: bool)
    requires 0 <= lo <= i < |text| && end <= |text|
    requires end == |text| || i <= end
    requires forall k :: lo < k <= i ==> text[k] != NL
    ensures Scan(text, i, end, corrected) == Scan(text, lo, end, corrected)
    decreases i
  {
    if i > lo {
      ScanSkips(text, i - 1, lo, end, corrected);
    }
  }

  /**
   * Once the end of a line is found, the scan stops at the line feed before
   * it, or at the start of the text, and the row starts after it.
   */
  lemma ScanLine(text: seq<bv8>, i: int, start: int, e: int, corrected: bool)
    requires 0 <= start <= i <= e < |text| && start < e
    requires forall k :: start <= k <= i ==> text[k] != NL
    requires start == 0 || (start >= 2 && text[start - 1] == NL)
    ensures Scan(text, i, e, corrected) == (start, e)
  {
    if start == 0 {
      ScanSkips(text, i, 0, e, corrected);
    } else {
      ScanSkips(text, i, start - 1, e, corrected);
    }
  }

  /**
   * The row shown is the last complete non-empty line, without its line
   * terminator: for a line ended by CR LF in both programs, and for a line
   * ended by a bare LF in the corrected one. The line is preceded by a line
   * feed (at an index above 0) or starts the text, and `rest` is a line still
   * being written.
   */
  lemma LastRowLine(prefix: seq<bv8>, line: seq<bv8>, term: seq<bv8>, rest: seq<bv8>, corrected: bool)
    requires term == [CR, NL] || (corrected && term == [NL] && line != [] && line[|line| - 1] != CR)
    requires line != [] && NL !in line && NL !in rest
    requires prefix == [] || (|prefix| >= 2 && prefix[|prefix| - 1] == NL)
    ensures var text := prefix + line + term + rest;
      LastRow(text, corrected) == (|prefix|, |prefix| + |line|)
  {
    var text := prefix + line + term + rest;
    var nl := |prefix| + |line| + |term| - 1;
    var e := |prefix| + |line|;
    assert text[nl] == NL;
    assert forall k :: nl < k < |text| ==> text[k] == rest[k - nl - 1];
    ScanSkips(text, |text| - 1, nl, |text|, corrected);
    assert text[nl - 1] == (if term == [NL] then line[|line| - 1] else CR);
    assert RowEnd(text, nl, corrected) == e;
    assert forall k :: |prefix| <= k < e ==> text[k] == line[k - |prefix|];
    ScanLine(text, nl - 1, |prefix|, e, corrected);
  }

  /**
   * With bare line feeds the source shows the wrong row: after "x\ny\n" it
   * shows "x\n" (the last byte of "y" is taken for a carriage return, the
   * line left empty, and the scan goes on to the line before), where the
   * corrected scan shows "y".
   */
  lemma BareLineFeedRow()
    ensures var text: seq<bv8> := [120, NL, 121, NL];
      && LastRow(text, false) == (0, 2) && text[0..2] == [120, NL]
      && LastRow(text, true) == (2, 3) && text[2..3] == [121]
  {
  }

  class OutputStreamListener {
    /** The bytes written so far (`buf[0..count]` of the byte array stream). */
    var buf: seq<bv8>
    /** The row shown: the value of `toString()`. */
    var output: seq<bv8>
    var oldCount: int
    var oldLastRowIndex: int
    /** Whether line ends are found as intended rather than as the source does. */
    const corrected: bool

    ghost predicate Valid()
      reads this
    {
      0 <= oldCount <= |buf|
    }

    constructor(corrected: bool)
      ensures Valid() && this.corrected == corrected
      ensures buf == [] && output == [] && oldCount == 0 && oldLastRowIndex == -1
    {
      buf := [];
      output := [];
      oldCount := 0;
      oldLastRowIndex := -1;
      this.corrected := corrected;
    }

    /** `write(bytes)` of the byte array stream: the bytes are appended. */
    method Write(bytes: seq<bv8>)
      requires Valid()
      modifies this`buf
      ensures Valid() && buf == old(buf) + bytes
    {
      buf := buf + bytes;
    }

    /**
     * `flush()`: when bytes were written since the last flush, the last row
     * is found, and shown if it starts after the row shown before.
     */
    method Flush()
      requires Valid()
      modifies this`output, this`oldCount, this`oldLastRowIndex
      ensures Valid() && oldCount == |buf|
      ensures |buf| <= old(oldCount) ==> output == old(output) && oldLastRowIndex == old(oldLastRowIndex)
      ensures |buf| > old(oldCount) ==>
        var row := LastRow(buf, corrected);
        if row.0 > old(oldLastRowIndex) then output == buf[row.0..row.1] && oldLastRowIndex == row.0
        else output == old(output) && oldLastRowIndex == old(oldLastRowIndex)
    {
      var count := |buf|;
      if count > oldCount {
        var end := count;
        var lastRowIndex := count - 1;
        while lastRowIndex > 0
          invariant 0 <= lastRowIndex < count && end <= count
          invariant end == count || lastRowIndex <= end
          invariant Scan(buf, lastRowIndex, end, corrected) == LastRow(buf, corrected)
          decreases lastRowIndex
        {
          if buf[lastRowIndex] == NL {
            if end == count {
              end := if !corrected || buf[lastRowIndex - 1] == CR then lastRowIndex - 1 else lastRowIndex;
            } else if end - lastRowIndex > 1 {
              lastRowIndex := lastRowIndex + 1;
              break;
            }
          }
          lastRowIndex := lastRowIndex - 1;
        }
        assert (lastRowIndex, end) == LastRow(buf, corrected);
        if lastRowIndex > oldLastRowIndex {
          output := buf[lastRowIndex..end];
          oldLastRowIndex := lastRowIndex;
        }
        oldCount := count;
      }
    }
  }
}
