/** The input-device registry parser: the text of the kernel's device list
    (`/proc/bus/input/devices`) is cut into paragraphs, and each paragraph
    gives one entry of a map from the device's event handler to its name.
    The text is taken as a parameter; one character stands for one byte. */
module Evdev {
  import opened Wrappers
  import opened Strings

  const NameTag := "Name="
  const HandlersTag := "Handlers="
  /** The prefix cut off a name line; its last character, the closing quote, goes too. */
  const NamePrefix := "N: Name=\""
  /** The prefix cut off a handlers line. */
  const HandlersPrefix := "H: Handlers="
  const EventTag := "event"
  const ChunkSeparator := "\n\n"

  predicate IsNameLine(line: string) {
    ContainsPattern(line, NameTag)
  }

  /** A handlers line that is not also a name line. */
  predicate IsHandlersLine(line: string) {
    !IsNameLine(line) && ContainsPattern(line, HandlersTag)
  }

  /** The slice taken of the line stays inside it; otherwise the parser panics. */
  predicate LineSliceable(line: string) {
    && (IsNameLine(line) ==> |line| >= |NamePrefix| + 1)
    && (IsHandlersLine(line) ==> |line| >= |HandlersPrefix|)
  }

  /** The text between the name prefix and the last character. */
  function NameOf(line: string): string
    requires IsNameLine(line) && LineSliceable(line)
  {
    line[|NamePrefix|..|line| - 1]
  }

  function HandlerTokens(line: string): seq<string>
    requires IsHandlersLine(line) && LineSliceable(line)
  {
    Split(line[|HandlersPrefix|..], " ")
  }

  /** `i` is the first token that contains "event". */
  ghost predicate FirstEventAt(tokens: seq<string>, i: int) {
    && 0 <= i < |tokens|
    && ContainsPattern(tokens[i], EventTag)
    && forall j :: 0 <= j < i ==> !ContainsPattern(tokens[j], EventTag)
  }

  /** The position of the first token that names an event interface, or
      the number of tokens when none does. */
  function FirstEventIndex(tokens: seq<string>): (r: nat)
    ensures r <= |tokens|
    ensures forall j :: 0 <= j < r ==> !ContainsPattern(tokens[j], EventTag)
    ensures r < |tokens| ==> ContainsPattern(tokens[r], EventTag)
  {
    if |tokens| == 0 then 0
    else if ContainsPattern(tokens[0], EventTag) then 0
    else
      var r := 1 + FirstEventIndex(tokens[1..]);
      assert forall j :: 1 <= j < r ==> tokens[j] == tokens[1..][j - 1];
      r
  }

  /** The first handler token that names an event interface. */
  function FirstEventHandler(tokens: seq<string>): (r: Option<string>)
    ensures r.Some? ==> exists i :: FirstEventAt(tokens, i) && tokens[i] == r.value
    ensures r.None? <==> forall i :: 0 <= i < |tokens| ==> !ContainsPattern(tokens[i], EventTag)
  {
    var i := FirstEventIndex(tokens);
    if i < |tokens| then
      assert FirstEventAt(tokens, i);
      Some(tokens[i])
    else None
  }

  /** Only the first event token counts: the tokens after it are never looked at. */
  lemma FirstEventHandlerAt(tokens: seq<string>, i: int)
    requires FirstEventAt(tokens, i)
    ensures FirstEventHandler(tokens) == Some(tokens[i])
  {
    var r := FirstEventHandler(tokens);
    var k :| FirstEventAt(tokens, k) && tokens[k] == r.value;
  }

  /** What the parse of a paragraph has seen so far. */
  datatype ChunkState = ChunkState(name: string, handlerName: string)

  /** One line: a name line replaces the name; a handlers line replaces the
      handler when one of its tokens names an event interface; other lines
      change nothing. */
  function StepLine(st: ChunkState, line: string): ChunkState
    requires LineSliceable(line)
  {
    if IsNameLine(line) then st.(name := NameOf(line))
    else if IsHandlersLine(line) then
      match FirstEventHandler(HandlerTokens(line))
      case Some(h) => st.(handlerName := h)
      case None => st
    else st
  }

  /** A line changes only its own field: the name only on a name line, the
      handler only on a handlers line. */
  lemma StepLineFields(st: ChunkState, line: string)
    requires LineSliceable(line)
    ensures !IsNameLine(line) ==> StepLine(st, line).name == st.name
    ensures !IsHandlersLine(line) ==> StepLine(st, line).handlerName == st.handlerName
  {
  }

  predicate AllSliceable(lines: seq<string>) {
    forall i :: 0 <= i < |lines| ==> LineSliceable(lines[i])
  }

  /** The lines of a paragraph, taken in order. */
  function ParseLines(lines: seq<string>): ChunkState
    requires AllSliceable(lines)
  {
    if |lines| == 0 then ChunkState("", "")
    else StepLine(ParseLines(lines[..|lines| - 1]), lines[|lines| - 1])
  }

  predicate ChunkSliceable(chunk: string) {
    AllSliceable(Lines(chunk))
  }

  /** The map entry a paragraph gives: its handler (empty when no handler line
      names an event interface) and its name (empty when it has no name line). */
  function ChunkEntry(chunk: string): (string, string)
    requires ChunkSliceable(chunk)
  {
    var st := ParseLines(Lines(chunk));
    (st.handlerName, st.name)
  }

  /** Parsing one more line is one more step. */
  lemma ParseLinesSnoc(lines: seq<string>, i: nat)
    requires i < |lines| && AllSliceable(lines[..i]) && LineSliceable(lines[i])
    ensures AllSliceable(lines[..i + 1])
    ensures ParseLines(lines[..i + 1]) == StepLine(ParseLines(lines[..i]), lines[i])
  {
    assert lines[..i + 1][..i] == lines[..i];
  }

  /** The recorded name is the one of the last name line. */
  lemma {:induction false} LastNameLineWins(lines: seq<string>, i: nat)
    requires AllSliceable(lines)
    requires i < |lines| && IsNameLine(lines[i])
    requires forall j :: i < j < |lines| ==> !IsNameLine(lines[j])
    ensures ParseLines(lines).name == NameOf(lines[i])
  {
    var n := |lines| - 1;
    var init := lines[..n];
    assert AllSliceable(init);
    if i < n {
      assert init[i] == lines[i];
      LastNameLineWins(init, i);
    }
  }

  /** Without a name line the name stays empty. */
  lemma {:induction false} NoNameLine(lines: seq<string>)
    requires AllSliceable(lines)
    requires forall j :: 0 <= j < |lines| ==> !IsNameLine(lines[j])
    ensures ParseLines(lines).name == ""
  {
    if |lines| > 0 {
      var init := lines[..|lines| - 1];
      assert AllSliceable(init);
      NoNameLine(init);
    }
  }

  /** A handlers line that names an event interface. */
  predicate SetsHandler(line: string)
    requires LineSliceable(line)
  {
    IsHandlersLine(line) && FirstEventHandler(HandlerTokens(line)).Some?
  }

  /** The recorded handler comes from the last handlers line that names an
      event interface, and is that line's first event token. */
  lemma {:induction false} LastHandlerLineWins(lines: seq<string>, i: nat)
    requires AllSliceable(lines)
    requires i < |lines| && SetsHandler(lines[i])
    requires forall j :: i < j < |lines| ==> !SetsHandler(lines[j])
    ensures ParseLines(lines).handlerName == FirstEventHandler(HandlerTokens(lines[i])).value
  {
    var n := |lines| - 1;
    var init := lines[..n];
    assert AllSliceable(init);
    if i < n {
      assert init[i] == lines[i];
      LastHandlerLineWins(init, i);
    }
  }

  /** Without such a line the handler stays empty. */
  lemma {:induction false} NoHandlerLine(lines: seq<string>)
    requires AllSliceable(lines)
    requires forall j :: 0 <= j < |lines| ==> !SetsHandler(lines[j])
    ensures ParseLines(lines).handlerName == ""
  {
    if |lines| > 0 {
      var init := lines[..|lines| - 1];
      assert AllSliceable(init);
      NoHandlerLine(init);
    }
  }

  /** A line holding both tags is only a name line: the handler is kept. */
  lemma NameAndHandlersLine(st: ChunkState, line: string)
    requires LineSliceable(line)
    requires ContainsPattern(line, NameTag) && ContainsPattern(line, HandlersTag)
    ensures StepLine(st, line) == st.(name := NameOf(line))
  {
  }

  /** What one paragraph does to the map, and whether the parse got through it:
      a blank paragraph is skipped, one whose slices fail stops the parse. */
  function ApplyChunk(devices: map<string, string>, chunk: string): (r: (map<string, string>, bool))
    ensures r.1 <==> Trim(chunk) == "" || ChunkSliceable(chunk)
    ensures Trim(chunk) == "" || !ChunkSliceable(chunk) ==> r.0 == devices
  {
    if Trim(chunk) == "" then (devices, true)
    else if !ChunkSliceable(chunk) then (devices, false)
    else
      var (handler, name) := ChunkEntry(chunk);
      (devices[handler := name], true)
  }

  /** The paragraphs in order, up to the first one that stops the parse. */
  function ParseChunks(devices: map<string, string>, chunks: seq<string>): (map<string, string>, bool)
    decreases |chunks|
  {
    if |chunks| == 0 then (devices, true)
    else
      var (next, ok) := ApplyChunk(devices, chunks[0]);
      if ok then ParseChunks(next, chunks[1..]) else (next, false)
  }

  /** A non-blank paragraph whose entry has the key `handler`. */
  predicate SetsKey(chunk: string, handler: string) {
    Trim(chunk) != "" && ChunkSliceable(chunk) && ChunkEntry(chunk).0 == handler
  }

  /** Every non-blank paragraph can be sliced. */
  predicate ChunksSliceable(chunks: seq<string>) {
    forall i :: 0 <= i < |chunks| ==> Trim(chunks[i]) == "" || ChunkSliceable(chunks[i])
  }

  lemma ChunksSliceableTail(chunks: seq<string>)
    requires |chunks| > 0 && ChunksSliceable(chunks)
    ensures ChunksSliceable(chunks[1..])
  {
    forall k | 0 <= k < |chunks[1..]| ensures Trim(chunks[1..][k]) == "" || ChunkSliceable(chunks[1..][k]) {
      assert chunks[1..][k] == chunks[k + 1];
    }
  }

  /** A paragraph that does not stop the parse hands the rest on. */
  lemma ParseChunksStep(devices: map<string, string>, chunks: seq<string>)
    requires |chunks| > 0 && ChunksSliceable(chunks)
    ensures ApplyChunk(devices, chunks[0]).1
    ensures ParseChunks(devices, chunks) == ParseChunks(ApplyChunk(devices, chunks[0]).0, chunks[1..])
  {
  }

  /** A key that no paragraph sets keeps its old presence and value: blank
      paragraphs and entries of other keys leave it alone. */
  lemma {:induction false} ParseChunksKeepsKey(devices: map<string, string>, chunks: seq<string>, handler: string)
    requires ChunksSliceable(chunks)
    requires forall i :: 0 <= i < |chunks| ==> !SetsKey(chunks[i], handler)
    ensures ParseChunks(devices, chunks).1
    ensures handler in ParseChunks(devices, chunks).0 <==> handler in devices
    ensures handler in devices ==> ParseChunks(devices, chunks).0[handler] == devices[handler]
    decreases |chunks|
  {
    if |chunks| > 0 {
      var next := ApplyChunk(devices, chunks[0]).0;
      assert !SetsKey(chunks[0], handler);
      assert handler in next <==> handler in devices;
      assert handler in devices ==> next[handler] == devices[handler];
      ChunksSliceableTail(chunks);
      ParseChunksStep(devices, chunks);
      forall k | 0 <= k < |chunks[1..]| ensures !SetsKey(chunks[1..][k], handler) {
        assert chunks[1..][k] == chunks[k + 1];
      }
      ParseChunksKeepsKey(next, chunks[1..], handler);
    }
  }

  /** A non-blank paragraph that can be sliced puts its entry into the map. */
  lemma ApplyChunkSets(devices: map<string, string>, chunk: string)
    requires Trim(chunk) != "" && ChunkSliceable(chunk)
    ensures ApplyChunk(devices, chunk) == (devices[ChunkEntry(chunk).0 := ChunkEntry(chunk).1], true)
  {
  }

  /** `ParseChunksKeepsKey` after the paragraph that last sets the key. */
  lemma LastSetterFirst(devices: map<string, string>, chunks: seq<string>)
    requires ChunksSliceable(chunks)
    requires |chunks| > 0 && Trim(chunks[0]) != ""
    requires forall j :: 0 < j < |chunks| ==> !SetsKey(chunks[j], ChunkEntry(chunks[0]).0)
    ensures ParseChunks(devices, chunks).1
    ensures ChunkEntry(chunks[0]).0 in ParseChunks(devices, chunks).0
    ensures ParseChunks(devices, chunks).0[ChunkEntry(chunks[0]).0] == ChunkEntry(chunks[0]).1
  {
    var entry := ChunkEntry(chunks[0]);
    ApplyChunkSets(devices, chunks[0]);
    ChunksSliceableTail(chunks);
    ParseChunksStep(devices, chunks);
    forall k | 0 <= k < |chunks[1..]| ensures !SetsKey(chunks[1..][k], entry.0) {
      assert chunks[1..][k] == chunks[k + 1];
    }
    ParseChunksKeepsKey(devices[entry.0 := entry.1], chunks[1..], entry.0);
  }

  /** Parsing two runs of paragraphs one after the other is parsing the
      second from where the first left off, unless the first stopped. */
  lemma {:induction false} ParseChunksAppend(devices: map<string, string>, xs: seq<string>, ys: seq<string>)
    ensures ParseChunks(devices, xs).1 ==> ParseChunks(devices, xs + ys) == ParseChunks(ParseChunks(devices, xs).0, ys)
    ensures !ParseChunks(devices, xs).1 ==> ParseChunks(devices, xs + ys) == ParseChunks(devices, xs)
    decreases |xs|
  {
    if |xs| == 0 {
      assert xs + ys == ys;
    } else {
      assert (xs + ys)[0] == xs[0];
      assert (xs + ys)[1..] == xs[1..] + ys;
      var (next, ok) := ApplyChunk(devices, xs[0]);
      if ok {
        ParseChunksAppend(next, xs[1..], ys);
      }
    }
  }

  /** When every non-blank paragraph can be sliced, the parse never stops. */
  lemma {:induction false} ParseChunksOk(devices: map<string, string>, chunks: seq<string>)
    requires ChunksSliceable(chunks)
    ensures ParseChunks(devices, chunks).1
    decreases |chunks|
  {
    if |chunks| > 0 {
      ChunksSliceableTail(chunks);
      ParseChunksStep(devices, chunks);
      ParseChunksOk(ApplyChunk(devices, chunks[0]).0, chunks[1..]);
    }
  }

  /** A non-blank paragraph that cannot be sliced stops the parse. */
  lemma {:induction false} ParseChunksStops(devices: map<string, string>, chunks: seq<string>)
    requires !ChunksSliceable(chunks)
    ensures !ParseChunks(devices, chunks).1
    decreases |chunks|
  {
    var (next, ok) := ApplyChunk(devices, chunks[0]);
    if ok {
      assert !ChunksSliceable(chunks[1..]) by {
        var k :| 0 <= k < |chunks| && Trim(chunks[k]) != "" && !ChunkSliceable(chunks[k]);
        assert k > 0;
        assert chunks[1..][k - 1] == chunks[k];
      }
      ParseChunksStops(next, chunks[1..]);
    }
  }

  /** Both sides of a cut keep every non-blank paragraph sliceable. */
  lemma ChunksSliceableSplit(chunks: seq<string>, i: nat)
    requires i <= |chunks| && ChunksSliceable(chunks)
    ensures chunks == chunks[..i] + chunks[i..]
    ensures ChunksSliceable(chunks[..i]) && ChunksSliceable(chunks[i..])
  {
    var pre, suf := chunks[..i], chunks[i..];
    assert chunks == pre + suf;
    forall k | 0 <= k < |pre| ensures Trim(pre[k]) == "" || ChunkSliceable(pre[k]) {
      assert pre[k] == chunks[k];
    }
    forall k | 0 <= k < |suf| ensures Trim(suf[k]) == "" || ChunkSliceable(suf[k]) {
      assert suf[k] == chunks[i + k];
    }
  }

  /** Cut at paragraph `i`, the suffix starts with it and no later paragraph sets `key`. */
  lemma SuffixLastSetter(chunks: seq<string>, i: nat, key: string)
    requires i < |chunks|
    requires forall j :: i < j < |chunks| ==> !SetsKey(chunks[j], key)
    ensures chunks[i..][0] == chunks[i]
    ensures forall j :: 0 < j < |chunks[i..]| ==> !SetsKey(chunks[i..][j], key)
  {
    var suf := chunks[i..];
    forall j | 0 < j < |suf| ensures !SetsKey(suf[j], key) {
      assert suf[j] == chunks[i + j];
    }
  }

  /** Later paragraphs overwrite earlier ones: a key maps to the name of the
      last paragraph that sets it. */
  lemma ParseChunksLastWins(devices: map<string, string>, chunks: seq<string>, i: nat)
    requires ChunksSliceable(chunks)
    requires i < |chunks| && Trim(chunks[i]) != ""
    requires forall j :: i < j < |chunks| ==> !SetsKey(chunks[j], ChunkEntry(chunks[i]).0)
    ensures ParseChunks(devices, chunks).1
    ensures ChunkEntry(chunks[i]).0 in ParseChunks(devices, chunks).0
    ensures ParseChunks(devices, chunks).0[ChunkEntry(chunks[i]).0] == ChunkEntry(chunks[i]).1
  {
    var pre, suf := chunks[..i], chunks[i..];
    var key := ChunkEntry(chunks[i]).0;
    ChunksSliceableSplit(chunks, i);
    SuffixLastSetter(chunks, i, key);
    var mid := ParseChunks(devices, pre).0;
    ParseChunksOk(devices, pre);
    ParseChunksAppend(devices, pre, suf);
    assert ParseChunks(devices, chunks) == ParseChunks(mid, suf);
    LastSetterFirst(mid, suf);
  }

  /** The loop over the handler tokens of a handlers line: the first token
      naming an event interface replaces `current`, and the scan stops there. */
  method ScanHandlers(handlerIter: seq<string>, current: string) returns (handlerName: string)
    ensures handlerName == match FirstEventHandler(handlerIter)
      case Some(h) => h
      case None => current
  {
    handlerName := current;
    var k := 0;
    while k < |handlerIter|
      invariant 0 <= k <= FirstEventIndex(handlerIter)
      invariant handlerName == current
    {
      if ContainsPattern(handlerIter[k], EventTag) {
        handlerName := handlerIter[k];
        break;
      }
      k := k + 1;
    }
  }

  /** `EvdevEvents`: the map from handler name to device name. */
  class EvdevEvents {
    var devices: map<string, string>

    /** `EvdevEvents(HashMap::new())`. */
    constructor ()
      ensures devices == map[]
    {
      devices := map[];
    }

    /** `parse_file_chunk`: one paragraph gives one entry, inserted (or
        overwritten) under its handler; a slice outside a line panics before
        the map is touched, reported here as `ok == false`. */
    method ParseFileChunk(fileChunk: string) returns (ok: bool)
      modifies this
      ensures ok == ChunkSliceable(fileChunk)
      ensures ok ==> devices == old(devices)[ChunkEntry(fileChunk).0 := ChunkEntry(fileChunk).1]
      ensures !ok ==> devices == old(devices)
    {
      var name := "";
      var handlerName := "";
      var lines := Lines(fileChunk);
      var i := 0;
      while i < |lines|
        invariant 0 <= i <= |lines|
        invariant AllSliceable(lines[..i])
        invariant ChunkState(name, handlerName) == ParseLines(lines[..i])
        invariant devices == old(devices)
      {
        var line := lines[i];
        ghost var before := ChunkState(name, handlerName);
        var containsName := ContainsPattern(line, NameTag);
        var containsHandlers := ContainsPattern(line, HandlersTag);
        if containsName {
          if |line| < |NamePrefix| + 1 {
            assert !AllSliceable(lines) by {
              assert !LineSliceable(lines[i]);
            }
            return false;
          }
          name := line[|NamePrefix|..|line| - 1];
          assert ChunkState(name, handlerName) == StepLine(before, line);
        } else if containsHandlers {
          if |line| < |HandlersPrefix| {
            assert !AllSliceable(lines) by {
              assert !LineSliceable(lines[i]);
            }
            return false;
          }
          var handlers := line[|HandlersPrefix|..];
          var handlerIter := Split(handlers, " ");
          handlerName := ScanHandlers(handlerIter, handlerName);
          assert ChunkState(name, handlerName) == StepLine(before, line);
        } else {
          assert ChunkState(name, handlerName) == StepLine(before, line);
        }
        ParseLinesSnoc(lines, i);
        assert ChunkState(name, handlerName) == ParseLines(lines[..i + 1]);
        i := i + 1;
        assert AllSliceable(lines[..i]);
        assert ChunkState(name, handlerName) == ParseLines(lines[..i]);
      }
      assert lines[..i] == lines;
      devices := devices[handlerName := name];
      ok := true;
    }

    /** `parse_events_file` on the file's text: the paragraphs between blank
        lines, the blank ones skipped, each of the others parsed in order; a
        panic in one leaves the entries of the paragraphs before it. */
    method ParseEventsFile(contents: string) returns (ok: bool)
      modifies this
      ensures (devices, ok) == ParseChunks(old(devices), Split(contents, ChunkSeparator))
    {
      var chunks := Split(contents, ChunkSeparator);
      var i := 0;
      while i < |chunks|
        invariant 0 <= i <= |chunks|
        invariant ParseChunks(devices, chunks[i..]) == ParseChunks(old(devices), chunks)
      {
        ghost var before := devices;
        assert chunks[i..][0] == chunks[i] && chunks[i..][1..] == chunks[i + 1..];
        if Trim(chunks[i]) != "" {
          ok := ParseFileChunk(chunks[i]);
          if !ok {
            assert ParseChunks(before, chunks[i..]) == (before, false);
            return;
          }
        }
        assert ApplyChunk(before, chunks[i]) == (devices, true);
        i := i + 1;
      }
      ok := true;
    }
  }

  /** `parse_events`: a fresh, empty map filled from the file's text. */
  method ParseEvents(contents: string) returns (events: EvdevEvents, ok: bool)
    ensures fresh(events)
    ensures (events.devices, ok) == ParseChunks(map[], Split(contents, ChunkSeparator))
  {
    events := new EvdevEvents();
    ok := events.ParseEventsFile(contents);
  }

  // ---------------------------------------------------------------- the paragraph of the unit test

  // The long lines are written as concatenations of short literals. Each lemma
  // below checks a few short pieces and `PlainConcat` chains them, so that no
  // long literal ever has to be compared or searched as a whole, which keeps
  // these concrete proofs cheap.

  const BusLine := "I: Bus=0000" + " Vendor=0000" + " Product=0000" + " Version=0000"
  const NameLine := NamePrefix + "HDA Intel" + " PCH Mic" + "\""
  const SysfsLine := "S: Sysfs=" + "/devices" + "/pci0000:00" + "/0000:00" + ":1f.3" + "/sound" + "/card0" + "/input15"
  const HandlersLine := HandlersPrefix + "event8"

  const TestLines: seq<string> := [
    BusLine, NameLine, "P: Phys=ALSA", SysfsLine, "U: Uniq=", HandlersLine, "B: PROP=0", "B: EV=21", "B: SW=10"]

  /** The paragraph: the nine lines joined by line feeds. */
  const TestChunk: string := Join(TestLines, "\n")

  /** No line feed and neither an upper-case N nor an upper-case H: a line
      that is neither a name line nor a handlers line. */
  predicate Plain(line: string) {
    forall k :: 0 <= k < |line| ==> line[k] != '\n' && line[k] != 'N' && line[k] != 'H'
  }

  lemma PlainConcat(a: string, b: string)
    requires Plain(a) && Plain(b)
    ensures Plain(a + b)
  {
  }

  lemma BusLinePlain()
    ensures Plain(BusLine)
  {
    var p, q, r, t := "I: Bus=0000", " Vendor=0000", " Product=0000", " Version=0000";
    BusPiecesPlain();
    PlainConcat(p, q);
    PlainConcat(p + q, r);
    PlainConcat(p + q + r, t);
  }

  lemma BusPiecesPlain()
    ensures Plain("I: Bus=0000") && Plain(" Vendor=0000")
    ensures Plain(" Product=0000") && Plain(" Version=0000")
  {
  }

  lemma TestLine1()
    ensures '\n' !in NameLine
  {
    var p, q, r, t := NamePrefix, "HDA Intel", " PCH Mic", "\"";
    assert '\n' !in p && '\n' !in q && '\n' !in r && '\n' !in t;
    assert '\n' !in p + q;
    assert '\n' !in p + q + r;
  }

  lemma SysfsLinePlain()
    ensures Plain(SysfsLine)
  {
    var p, q, r, t := "S: Sysfs=", "/devices", "/pci0000:00", "/0000:00";
    var u, v, w, z := ":1f.3", "/sound", "/card0", "/input15";
    SysfsHeadPlain();
    SysfsTailPlain();
    PlainConcat(p, q);
    PlainConcat(p + q, r);
    PlainConcat(p + q + r, t);
    PlainConcat(p + q + r + t, u);
    PlainConcat(p + q + r + t + u, v);
    PlainConcat(p + q + r + t + u + v, w);
    PlainConcat(p + q + r + t + u + v + w, z);
  }

  lemma SysfsHeadPlain()
    ensures Plain("S: Sysfs=") && Plain("/devices")
    ensures Plain("/pci0000:00") && Plain("/0000:00")
  {
  }

  lemma SysfsTailPlain()
    ensures Plain(":1f.3") && Plain("/sound")
    ensures Plain("/card0") && Plain("/input15")
  {
  }

  lemma TestLine5()
    ensures '\n' !in HandlersLine && 'N' !in HandlersLine
  {
    var p, q := HandlersPrefix, "event8";
    assert '\n' !in p && 'N' !in p && '\n' !in q && 'N' !in q;
  }

  /** Every line but the name line and the handlers line is plain; none holds
      a line feed or ends in a carriage return. */
  lemma TestLinesShort()
    ensures forall k :: 0 <= k < |TestLines| ==> '\n' !in TestLines[k] && StripCr(TestLines[k]) == TestLines[k]
    ensures forall k :: 0 <= k < |TestLines| && k != 1 && k != 5 ==> Plain(TestLines[k])
    ensures 'N' !in TestLines[5]
  {
    BusLinePlain();
    TestLine1();
    SysfsLinePlain();
    TestLine5();
    PhysUniqPlain();
    BitsLinesPlain();
  }

  lemma PhysUniqPlain()
    ensures Plain("P: Phys=ALSA") && Plain("U: Uniq=")
  {
  }

  lemma BitsLinesPlain()
    ensures Plain("B: PROP=0") && Plain("B: EV=21") && Plain("B: SW=10")
  {
  }

  lemma TestChunkLines()
    ensures Lines(TestChunk) == TestLines
  {
    TestLinesShort();
    LinesJoin(TestLines);
  }

  /** A plain line is neither a name nor a handlers line. */
  lemma PlainLine(line: string)
    requires Plain(line)
    ensures !ContainsPattern(line, NameTag) && !ContainsPattern(line, HandlersTag)
  {
    AbsentHeadNotContained(line, NameTag);
    AbsentHeadNotContained(line, HandlersTag);
  }

  /** Line 1 is the only name line, line 5 the only handlers line. */
  lemma TestLinesKinds()
    ensures forall j :: 0 <= j < |TestLines| && j != 1 && j != 5 ==> !ContainsPattern(TestLines[j], NameTag) && !ContainsPattern(TestLines[j], HandlersTag)
    ensures IsNameLine(TestLines[1]) && IsHandlersLine(TestLines[5])
  {
    TestLinesShort();
    forall j | 0 <= j < |TestLines| && j != 1 && j != 5
      ensures !ContainsPattern(TestLines[j], NameTag) && !ContainsPattern(TestLines[j], HandlersTag)
    {
      PlainLine(TestLines[j]);
    }
    TestNameLine();
    TestHandlersLine();
  }

  lemma TestNameLine()
    ensures IsNameLine(TestLines[1]) && LineSliceable(TestLines[1])
    ensures NameOf(TestLines[1]) == "HDA Intel PCH Mic"
  {
    var line := TestLines[1];
    assert line == NamePrefix + "HDA Intel PCH Mic" + "\"";
    assert line[3..8] == NameTag;
    assert OccursAt(line, NameTag, 3);
    assert line[|NamePrefix|..|line| - 1] == "HDA Intel PCH Mic";
  }

  lemma TestHandlersLine()
    ensures IsHandlersLine(TestLines[5]) && LineSliceable(TestLines[5])
    ensures TestLines[5][|HandlersPrefix|..] == "event8"
  {
    var line := TestLines[5];
    assert line == HandlersPrefix + "event8";
    TestLine5();
    AbsentHeadNotContained(line, NameTag);
    TaggedAt(line, HandlersTag, 3);
  }

  lemma TaggedAt(line: string, tag: string, i: nat)
    requires i + |tag| <= |line| && line[i..i + |tag|] == tag
    ensures ContainsPattern(line, tag)
  {
    assert OccursAt(line, tag, i);
  }

  /** The handlers line names the interface event8 first. */
  lemma TestHandler()
    ensures LineSliceable(TestLines[5]) && SetsHandler(TestLines[5])
    ensures FirstEventHandler(HandlerTokens(TestLines[5])) == Some("event8")
  {
    TestHandlersLine();
    var tokens := HandlerTokens(TestLines[5]);
    AbsentHeadNotContained("event8", " ");
    assert tokens == ["event8"];
    assert "event8"[0..5] == EventTag;
    assert OccursAt(tokens[0], EventTag, 0);
    FirstEventHandlerAt(tokens, 0);
  }

  /** Its lines leave the name of line 1 and the handler of line 5. */
  lemma TestLinesParse()
    ensures AllSliceable(TestLines)
    ensures ParseLines(TestLines) == ChunkState("HDA Intel PCH Mic", "event8")
  {
    var ls := TestLines;
    TestLinesKinds();
    TestHandler();
    TestNameLine();
    assert AllSliceable(ls);
    assert forall j :: 1 < j < |ls| ==> !IsNameLine(ls[j]);
    LastNameLineWins(ls, 1);
    assert forall j :: 5 < j < |ls| ==> !SetsHandler(ls[j]);
    LastHandlerLineWins(ls, 5);
  }

  /** The sound-card paragraph gives the entry event8 -> "HDA Intel PCH Mic". */
  lemma TestChunkEntry()
    ensures ChunkSliceable(TestChunk)
    ensures ChunkEntry(TestChunk) == ("event8", "HDA Intel PCH Mic")
  {
    TestChunkLines();
    TestLinesParse();
  }
}
