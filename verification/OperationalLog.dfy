/**
 The bounded log: an event is appended, or the log is rewritten as its newest records that leave room for the
 event.  A write may stop after any byte; what it leaves is recognised by the missing line end.
 */
module OperationalLog {
  import opened Text

  const MAX_LOG_BYTES := 240 * 1024
  const MAX_EVENT_BYTES := 120 * 1024

  // ---------------------------------------------------------------- which records are kept

  /** The valid lines, each with its line end. */
  function Records(lines: seq<string>, isRecord: string -> bool): (records: seq<string>)
    ensures forall i :: 0 <= i < |records| ==> records[i] != "" && records[i][|records[i]| - 1] == '\n'
  {
    if lines == [] then []
    else (if lines[0] != "" && isRecord(lines[0]) then [lines[0] + "\n"] else []) + Records(lines[1..], isRecord)
  }

  /** The longest run of newest records that fits. */
  function Newest(records: seq<string>, budget: nat): (kept: seq<string>)
    ensures |kept| <= |records| && kept == records[|records| - |kept|..]
    ensures |Concat(kept)| <= budget
  {
    if records == [] || |Concat(records)| <= budget then records else Newest(records[1..], budget)
  }

  lemma {:induction false} ConcatGrows(records: seq<string>, i: nat)
    requires i <= |records|
    ensures |Concat(records[i..])| <= |Concat(records)|
  {
    if i > 0 {
      ConcatGrows(records[1..], i - 1);
      assert records[1..][i - 1..] == records[i..];
    } else {
      assert records[0..] == records;
    }
  }

  /** No longer run of newest records fits. */
  lemma {:induction false} NewestIsLongest(records: seq<string>, budget: nat, i: nat)
    requires i <= |records| && |Concat(records[i..])| <= budget
    ensures |Newest(records, budget)| >= |records| - i
  {
    assert records[0..] == records;
    if i > 0 && |Concat(records)| > budget {
      assert records[1..][i - 1..] == records[i..];
      NewestIsLongest(records[1..], budget, i - 1);
    }
  }

  /** A run that fits while the one with one record more does not is the longest. */
  lemma {:induction false} NewestIs(records: seq<string>, budget: nat, i: nat)
    requires i <= |records| && |Concat(records[i..])| <= budget
    requires i > 0 ==> |Concat(records[i - 1..])| > budget
    ensures Newest(records, budget) == records[i..]
  {
    assert records[0..] == records;
    if i > 0 {
      ConcatGrows(records, i - 1);
      assert records[1..][i - 1..] == records[i..];
      if i > 1 {
        assert records[1..][i - 2..] == records[i - 1..];
      }
      NewestIs(records[1..], budget, i - 1);
    }
  }

  lemma {:induction false} RecordsOfBoth(a: seq<string>, b: seq<string>, isRecord: string -> bool)
    ensures Records(a + b, isRecord) == Records(a, isRecord) + Records(b, isRecord)
  {
    if a == [] {
      assert a + b == b;
    } else {
      assert (a + b)[1..] == a[1..] + b;
      RecordsOfBoth(a[1..], b, isRecord);
    }
  }

  function FirstIndex(s: string, c: char): (i: Option<nat>)
    ensures i.Some? ==> i.value < |s| && s[i.value] == c && forall j :: 0 <= j < i.value ==> s[j] != c
    ensures i.None? ==> c !in s
  {
    if s == "" then None else if s[0] == c then Some(0)
    else match FirstIndex(s[1..], c) case None => None case Some(i) => Some(i + 1)
  }

  function LastIndex(s: string, c: char): (i: Option<nat>)
    ensures i.Some? ==> i.value < |s| && s[i.value] == c && forall j :: i.value < j < |s| ==> s[j] != c
    ensures i.None? ==> c !in s
  {
    if s == "" then None else if s[|s| - 1] == c then Some(|s| - 1) else LastIndex(s[..|s| - 1], c)
  }

  /** A place in a log that follows a line end within the last 240 KiB, or its beginning when all of it is looked at. */
  predicate StartsInWindow(log: string, at: nat) {
    at <= |log| && if |log| <= MAX_LOG_BYTES then at == 0 else at > |log| - MAX_LOG_BYTES && log[at - 1] == '\n'
  }

  /** The window is the longest end of the log that starts so. */
  lemma WindowIsLongest(log: string, at: nat)
    ensures Window(log).Some? ==>
              var w := Window(log).value;
              |w| <= |log| && w == log[|log| - |w|..] && StartsInWindow(log, |log| - |w|)
    ensures StartsInWindow(log, at) ==> Window(log).Some? && |log| - |Window(log).value| <= at
  {
    if |log| > MAX_LOG_BYTES {
      var start := |log| - MAX_LOG_BYTES;
      var tail := log[start..];
      if StartsInWindow(log, at) {
        assert tail[at - 1 - start] == '\n';
      }
      var first := FirstIndex(tail, '\n');
      if first.Some? {
        assert tail[first.value + 1..] == log[start + first.value + 1..];
        assert log[start + first.value] == tail[first.value];
      }
    }
  }

  /**
   What is kept comes from the whole lines of the window: the text up to its last line end, line by line.  Without any
   line end there is nothing to keep.
   */
  lemma CompactedReadsLines(log: string, budget: nat, isRecord: string -> bool, last: nat)
    requires Window(log).Some? && budget >= MAX_EVENT_BYTES
    requires last < |Window(log).value| && Window(log).value[last] == '\n'
    requires forall j :: last < j < |Window(log).value| ==> Window(log).value[j] != '\n'
    ensures var records := Records(Split(Window(log).value[..last], '\n'), isRecord);
            (records != [] && |records[|records| - 1]| <= budget ==>
               Compacted(log, budget, isRecord) == Some(Concat(Newest(records, budget))))
            && (records == [] && |log| <= MAX_LOG_BYTES ==> Compacted(log, budget, isRecord) == Some(""))
  {
    hide Window, Records, Split, Newest, Concat;
    assert LastIndex(Window(log).value, '\n') == Some(last);
  }

  /** The last 240 KiB of a log, from the first line end on when something lies before them. */
  function Window(log: string): Option<string> {
    var start := if |log| > MAX_LOG_BYTES then |log| - MAX_LOG_BYTES else 0;
    var tail := log[start..];
    if start == 0 then Some(tail)
    else match FirstIndex(tail, '\n')
      case None => None
      case Some(i) => if i + 1 <= |tail| then Some(tail[i + 1..]) else None
  }

  /** `compactedTail`: what is kept of a log, or None when it cannot be told. */
  function Compacted(log: string, budget: nat, isRecord: string -> bool): Option<string> {
    var tail := Window(log);
    if budget < MAX_EVENT_BYTES || tail.None? then None
    else
      match LastIndex(tail.value, '\n')
      case None => if |log| > MAX_LOG_BYTES then None else Some("")
      case Some(last) =>
        var records := Records(Split(tail.value[..last], '\n'), isRecord);
        if records == [] then (if |log| > MAX_LOG_BYTES then None else Some(""))
        else if |records[|records| - 1]| > budget then None
        else Some(Concat(Newest(records, budget)))
  }

  function Ended(lines: seq<string>): seq<string> {
    seq(|lines|, i requires 0 <= i < |lines| => lines[i] + "\n")
  }

  lemma {:induction false} EndedIsJoined(lines: seq<string>)
    requires lines != []
    ensures Concat(Ended(lines)) == Join(lines, '\n') + "\n"
  {
    if |lines| == 1 {
      assert Ended(lines)[1..] == [] && Concat([]) == "";
    } else {
      assert Ended(lines)[1..] == Ended(lines[1..]);
      EndedIsJoined(lines[1..]);
    }
  }

  lemma {:induction false} AllAreRecords(lines: seq<string>, isRecord: string -> bool)
    requires forall i :: 0 <= i < |lines| ==> lines[i] != "" && isRecord(lines[i])
    ensures Records(lines, isRecord) == Ended(lines)
  {
    if lines != [] {
      AllAreRecords(lines[1..], isRecord);
      assert Ended(lines) == [lines[0] + "\n"] + Ended(lines[1..]);
    }
  }

  /** Of a log that consists of records, the longest newest run that fits is kept. */
  lemma LogOfRecords(lines: seq<string>, budget: nat, isRecord: string -> bool)
    requires lines != [] && forall i :: 0 <= i < |lines| ==> lines[i] != "" && '\n' !in lines[i] && isRecord(lines[i])
    requires budget >= MAX_EVENT_BYTES && |lines[|lines| - 1]| + 1 <= budget
    ensures var log := Concat(Ended(lines));
            |log| <= MAX_LOG_BYTES ==> Compacted(log, budget, isRecord) == Some(Concat(Newest(Ended(lines), budget)))
  {
    hide Records, Split, Newest, Concat, Join;
    var log := Concat(Ended(lines));
    EndedIsJoined(lines);
    AllAreRecords(lines, isRecord);
    SplitOfJoin(lines, '\n');
    assert log[|log| - 1] == '\n' && log[..|log| - 1] == Join(lines, '\n') && log[0..] == log;
  }

  /** What is kept ends a line. */
  lemma {:induction false} ConcatEndsLine(records: seq<string>)
    requires records != []
    requires forall i :: 0 <= i < |records| ==> records[i] != "" && records[i][|records[i]| - 1] == '\n'
    ensures Concat(records) != "" && Concat(records)[|Concat(records)| - 1] == '\n'
  {
    if |records| == 1 {
      assert records[0] + Concat(records[1..]) == records[0];
    } else {
      ConcatEndsLine(records[1..]);
    }
  }

  /** The newest of some records that fit together fits. */
  lemma LastFits(records: seq<string>, budget: nat)
    requires records != [] && |Concat(records)| <= budget
    ensures |records[|records| - 1]| <= budget
  {
    ConcatGrows(records, |records| - 1);
    var last := records[|records| - 1..];
    assert last[1..] == [];
    assert Concat(last) == last[0] + "";
  }

  /** The records to keep, or None when not even the newest fits. */
  function Selection(records: seq<string>, budget: nat): Option<seq<string>> {
    if records == [] then Some([])
    else if |records[|records| - 1]| > budget then None
    else Some(Newest(records, budget))
  }

  /** One line further back. */
  lemma OneLine(lines: seq<string>, index: nat, isRecord: string -> bool)
    requires 0 < index <= |lines|
    ensures var line := lines[index - 1];
            Records(lines[index - 1..], isRecord) ==
            (if line != "" && isRecord(line) then [line + "\n"] else []) + Records(lines[index..], isRecord)
  {
    assert lines[index - 1..][1..] == lines[index..];
  }

  /** A record that does not fit any more ends the selection. */
  lemma Overflow(lines: seq<string>, index: nat, isRecord: string -> bool, budget: nat, selected: seq<string>)
    requires 0 < index <= |lines| && lines[index - 1] != "" && isRecord(lines[index - 1])
    requires selected == Records(lines[index..], isRecord) && |Concat(selected)| <= budget
    requires |Concat(selected)| + |lines[index - 1]| + 1 > budget
    ensures Selection(Records(lines, isRecord), budget) == if selected == [] then None else Some(selected)
  {
    var records, record := Records(lines, isRecord), lines[index - 1] + "\n";
    var older, newer := Records(lines[..index - 1], isRecord), [record] + selected;
    OneLine(lines, index, isRecord);
    assert lines == lines[..index - 1] + lines[index - 1..];
    RecordsOfBoth(lines[..index - 1], lines[index - 1..], isRecord);
    assert records == older + newer;
    hide Records, Newest;
    if selected != [] {
      assert newer[1..] == selected;
      assert records[|older| + 1..] == selected && records[|older|..] == newer;
      NewestIs(records, budget, |older| + 1);
      LastFits(selected, budget);
      assert records[|records| - 1] == selected[|selected| - 1];
    } else {
      assert records[|records| - 1] == record;
    }
  }

  lemma AllFit(records: seq<string>, budget: nat)
    requires |Concat(records)| <= budget
    ensures Selection(records, budget) == Some(records)
  {
    if records != [] {
      LastFits(records, budget);
    }
  }

  /** The loop of `compactedTail` over the lines, from the newest back. */
  method SelectNewest(lines: seq<string>, budget: nat, isRecord: string -> bool) returns (out: Option<seq<string>>)
    ensures out == Selection(Records(lines, isRecord), budget)
  {
    hide Selection, Records;
    var selected: seq<string>, selectedBytes: nat, foundValid := [], 0, false;
    var index := |lines|;
    assert lines[|lines|..] == [];
    NoRecords(isRecord);
    while index > 0
      invariant 0 <= index <= |lines|
      invariant selected == Records(lines[index..], isRecord)
      invariant selectedBytes == |Concat(selected)| <= budget && (foundValid <==> selected != [])
    {
      var candidate := lines[index - 1];
      OneLine(lines, index, isRecord);
      if candidate != "" && isRecord(candidate) {
        var record := candidate + "\n";
        if selectedBytes + |record| > budget {
          Overflow(lines, index, isRecord, budget, selected);
        }
        if !foundValid && |record| > budget {
          return None;
        }
        foundValid := true;
        if selectedBytes + |record| > budget {
          return Some(selected);
        }
        assert ([record] + selected)[1..] == selected;
        selected := [record] + selected;
        selectedBytes := selectedBytes + |record|;
      }
      index := index - 1;
    }
    assert lines[0..] == lines;
    AllFit(selected, budget);
    return Some(selected);
  }

  lemma NoRecords(isRecord: string -> bool)
    ensures Records([], isRecord) == [] && Concat([]) == ""
  {
  }

  // ---------------------------------------------------------------- the file

  predicate IsComplete(log: string) {
    log == "" || log[|log| - 1] == '\n'
  }

  /** Whether an event is appended to the log as it is. */
  predicate FitsAsIs(log: string, line: string) {
    |log| + |line| <= MAX_LOG_BYTES && IsComplete(log)
  }

  class Logger {
    /** Whether a line is well-formed UTF-8 that decodes to a JSON object. */
    const isRecord: string -> bool
    var log: string
    /** Whether every file operation is carried out. */
    var calm: bool

    constructor (isRecord: string -> bool, log: string)
      ensures this.log == log && this.isRecord == isRecord
    {
      this.isRecord, this.log, calm := isRecord, log, true;
    }

    /** `writeAll` at the end of the log: piece by piece, and it may stop after any of them. */
    method WriteAll(bytes: string) returns (ok: bool)
      modifies this`log
      ensures ok ==> log == old(log) + bytes
      ensures !ok ==> exists n :: 0 <= n <= |bytes| && log == old(log) + bytes[..n]
      ensures calm ==> ok
    {
      var offset: nat := 0;
      assert old(log) + bytes[..0] == old(log);
      while offset < |bytes|
        invariant offset <= |bytes| && log == old(log) + bytes[..offset]
      {
        var written: int := *;
        if written < 1 || written > |bytes| - offset {
          if !calm {
            return false;
          }
          written := |bytes| - offset;
        }
        assert bytes[..offset + written] == bytes[..offset] + bytes[offset..offset + written];
        log := log + bytes[offset..offset + written];
        offset := offset + written;
      }
      assert bytes[..|bytes|] == bytes;
      return true;
    }

    /** `fread` until the window is full, in pieces of any size. */
    method ReadTail(start: nat) returns (tail: Option<string>)
      requires start <= |log|
      ensures tail.Some? ==> tail.value == log[start..]
      ensures calm ==> tail.Some?
    {
      var read := "";
      while |read| < |log| - start
        invariant |read| <= |log| - start && read == log[start..start + |read|]
      {
        var n: int := *;
        if n < 1 || n > |log| - start - |read| {
          if !calm {
            return None;
          }
          n := |log| - start - |read|;
        }
        read := read + log[start + |read|..start + |read| + n];
      }
      return Some(read);
    }

    /** `compactedTail` */
    method CompactedTail(budget: int) returns (kept: Option<string>)
      ensures kept.Some? ==> budget >= 0 && kept == Compacted(log, budget, isRecord)
      ensures calm && budget >= 0 ==> kept == Compacted(log, budget, isRecord)
    {
      hide Records, Newest, Split, FirstIndex, LastIndex, Concat;
      if budget < MAX_EVENT_BYTES {
        return None;
      }
      var start := if |log| > MAX_LOG_BYTES then |log| - MAX_LOG_BYTES else 0;
      var tail := ReadTail(start);
      if tail.None? {
        return None;
      }
      var text := tail.value;
      if start > 0 {
        var first := FirstIndex(text, '\n');
        if first.None? || first.value + 1 > |text| {
          return None;
        }
        text := text[first.value + 1..];
      }
      var last := LastIndex(text, '\n');
      if last.None? {
        return if start > 0 then None else Some("");
      }
      var lines := Split(text[..last.value], '\n');
      var selected := SelectNewest(lines, budget, isRecord);
      Kept(Records(lines, isRecord), budget);
      if selected.None? {
        return None;
      }
      if selected.value == [] && start > 0 {
        return None;
      }
      return Some(Concat(selected.value));
    }

    /** What a selection comes to. */
    lemma Kept(records: seq<string>, budget: nat)
      ensures var selected := Selection(records, budget);
              && (records == [] <==> selected == Some([]))
              && (records != [] ==> (selected.None? <==> |records[|records| - 1]| > budget)
                                    && (selected.Some? ==> selected.value == Newest(records, budget)))
              && Concat([]) == ""
    {
      if records != [] && |records[|records| - 1]| <= budget {
        assert records[|records| - 1..][1..] == [];
        assert Concat(records[|records| - 1..]) == records[|records| - 1] + "";
        NewestIsLongest(records, budget, |records| - 1);
      }
    }

    lemma KeptFits(budget: nat)
      requires Compacted(log, budget, isRecord).Some?
      ensures var kept := Compacted(log, budget, isRecord).value; |kept| <= budget && IsComplete(kept)
    {
      hide Records, Concat, Split, LastIndex, FirstIndex, Newest, IsComplete;
      NothingIsComplete();
      var last := LastIndex(Window(log).value, '\n');
      if last.Some? {
        NewestIsComplete(Records(Split(Window(log).value[..last.value], '\n'), isRecord), budget);
      }
    }

    lemma NothingIsComplete()
      ensures IsComplete("")
    {
    }

    lemma NewestIsComplete(records: seq<string>, budget: nat)
      requires forall i :: 0 <= i < |records| ==> records[i] != "" && records[i][|records[i]| - 1] == '\n'
      ensures IsComplete(Concat(Newest(records, budget)))
    {
      hide Concat, Newest;
      var kept := Newest(records, budget);
      if kept != [] {
        forall i | 0 <= i < |kept| ensures kept[i] != "" && kept[i][|kept[i]| - 1] == '\n' {
          assert kept[i] == records[|records| - |kept| + i];
        }
        ConcatEndsLine(kept);
      } else {
        NoRecords(isRecord);
      }
    }

    /** The log as it would be rewritten before an event. */
    function Rewritten(log: string, line: string): Option<string> {
      if |line| > MAX_LOG_BYTES then None
      else match Compacted(log, MAX_LOG_BYTES - |line|, isRecord)
        case None => None
        case Some(kept) => Some(kept + line)
    }

    /**
     `append`: what a successful append leaves is the old log and the event, or, when they are too large or the old
     log's end is torn, the newest records that fit before the event.  An append that fails loses nothing that was
     there, unless it failed only after the rewritten log was in place.
     */
    method Append(line: string) returns (ok: bool)
      requires line != "" && IsComplete(line)
      modifies this`log
      ensures ok ==> |log| <= MAX_LOG_BYTES && IsComplete(log) && log != ""
      ensures ok && FitsAsIs(old(log), line) ==> log == old(log) + line
      ensures ok && !FitsAsIs(old(log), line) ==> Rewritten(old(log), line) == Some(log)
      ensures !ok && FitsAsIs(old(log), line) ==> exists n :: 0 <= n <= |line| && log == old(log) + line[..n]
      ensures !ok && !FitsAsIs(old(log), line) ==> log == old(log) || Rewritten(old(log), line) == Some(log)
      ensures calm ==> (ok <==> FitsAsIs(old(log), line) || Rewritten(old(log), line).Some?)
    {
      hide Compacted;
      if |log| + |line| <= MAX_LOG_BYTES && IsComplete(log) {
        ok := WriteAll(line);
        var synced: bool := *;
        if ok && !synced && !calm {
          assert line[..|line|] == line;
          ok := false;
        }
        return;
      }
      var kept := CompactedTail(MAX_LOG_BYTES - |line|);
      if kept.None? {
        return false;
      }
      KeptFits(MAX_LOG_BYTES - |line|);
      var compacted := kept.value + line;
      if |compacted| > MAX_LOG_BYTES {
        return false;
      }
      var written, renamed, synced: bool := *, *, *;
      if !calm && (!written || !renamed) {
        return false;
      }
      log := compacted;
      return calm || synced;
    }

    /** Any number of appends, each of which may fail: a successful one always leaves a bounded log of whole lines. */
    method Run(lines: seq<string>) returns (oks: seq<bool>)
      requires forall i :: 0 <= i < |lines| ==> lines[i] != "" && IsComplete(lines[i])
      modifies this`log
      ensures |oks| == |lines| && (|oks| > 0 && oks[|oks| - 1] ==> |log| <= MAX_LOG_BYTES && IsComplete(log))
    {
      hide Compacted;
      oks := [];
      for i := 0 to |lines|
        invariant |oks| == i && (i > 0 && oks[i - 1] ==> |log| <= MAX_LOG_BYTES && IsComplete(log))
      {
        var ok := Append(lines[i]);
        oks := oks + [ok];
      }
    }
  }
}
