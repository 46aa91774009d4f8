/** The `ArduinoReadSerial` object of arduino.py: the fields a read cycle uses and
    updates, and the methods of one cycle, with the serial device replaced by the
    buffer it would have returned and the dict iteration order by a ranking. */
module Arduino {
  import opened PyText
  import opened ArduinoSpec

  class ArduinoReadSerial {
    /** node id -> metric name -> position; never reassigned after construction. */
    const dataDefinition: DataDefinition
    /** Number of header tokens before the byte tokens of a frame. */
    const shift: int
    /** The values of the last cycle that created a metric key. */
    var lastValues: Samples

    /** Only metric names of the tables are ever cached. */
    predicate Valid()
      reads this
    {
      forall k :: k in lastValues ==> k in AllMetrics(dataDefinition)
    }

    constructor (dataDefinition: DataDefinition, shift: int := 2)
      ensures this.dataDefinition == dataDefinition && this.shift == shift
      ensures lastValues == map[]
      ensures Valid()
    {
      this.dataDefinition := dataDefinition;
      this.shift := shift;
      lastValues := map[];
    }

    /** `getFormattedLine`, given what `openAndFirstCheck` returned: the buffer is cut at
        `\n`, and each segment, without its nul characters, is kept as a frame when it is
        non-empty and its tokens pass `isLineOK`. */
    method GetFormattedLine(buffer: Option<string>) returns (lines: seq<Tokens>)
      ensures lines == FormattedLines(shift, buffer)
      ensures forall i :: 0 <= i < |lines| ==> WellFormedFrame(shift, lines[i])
    {
      FormattedLinesWellFormed(shift, buffer);
      lines := [];
      if buffer.None? {
        return;
      }
      var segments := SplitOn(buffer.value, Char('\n'));
      ghost var opts := Parsed(shift, segments);
      for i := 0 to |segments|
        invariant lines + Somes(opts[i..]) == Somes(opts)
      {
        SomesStep(opts, i, lines);
        var line := Remove(segments[i], '\0');
        if |line| == 0 {
          continue;
        }
        var tokens := Tokenize(line);
        if !IsLineOK(shift, tokens) {
          continue;
        }
        lines := lines + [tokens];
      }
      assert opts[|segments|..] == [];
      FramesSomes(shift, segments);
    }

    /** `add_values(tokens, values)`: the updated `values`, or the IndexError that
        escapes it. */
    method AddValues(tokens: Tokens, values: Samples) returns (r: Outcome<Samples>)
      ensures r == AddedValues(dataDefinition, tokens, values)
    {
      if |tokens| == 0 {
        return IndexError;
      }
      if tokens[0] !in dataDefinition {
        return Done(values);
      }
      var table := dataDefinition[tokens[0]];
      var acc := values;
      var todo := table.Keys;
      ghost var adds := Additions(table, tokens);
      assert Reached(table, {}, tokens) == {};
      assert acc == Grown(values, {}, adds);
      while todo != {}
        invariant todo <= table.Keys
        invariant NoIndexError(table, table.Keys - todo, tokens)
        invariant Reached(table, table.Keys - todo, tokens) <= adds.Keys
        invariant acc == Grown(values, Reached(table, table.Keys - todo, tokens), adds)
        decreases todo
      {
        var key :| key in todo;
        ghost var done := table.Keys - todo;
        ghost var handled := Reached(table, done, tokens);
        todo := todo - {key};
        assert table.Keys - todo == done + {key};
        ReachedStep(table, done, key, tokens);
        var position := table[key];
        if !(|tokens| >= position + 1) {
          NoIndexErrorStep(table, done, key, tokens);
          continue;
        }
        if position < -|tokens| {
          assert !NoIndexError(table, table.Keys, tokens);
          return IndexError;
        }
        NoIndexErrorStep(table, done, key, tokens);
        assert key in adds && key !in handled;
        GrownStep(values, handled, adds, key);
        var sample := Sample(PyIndex(tokens, position));
        assert adds[key] == sample;
        ghost var prev := acc;
        if key !in acc {
          acc := acc[key := []];
        }
        assert acc == if key in prev then prev else prev[key := []];
        CreateThenAppend(prev, key, sample);
        acc := acc[key := acc[key] + sample];
      }
      assert table.Keys - todo == table.Keys;
      return Done(acc);
    }

    /** `dispatch(values)`, iterating in `order`: caches `values`, then emits one gauge
        per metric up to the first one without samples. */
    method Dispatch(values: Samples, order: seq<string>) returns (emitted: seq<Gauge>)
      requires Enumerates(order, values.Keys)
      modifies this
      ensures lastValues == values
      ensures (forall k :: k in values ==> k in AllMetrics(dataDefinition)) ==> Valid()
      ensures emitted == Emitted(values, order)
    {
      lastValues := values;
      emitted := [];
      for i := 0 to |order|
        invariant lastValues == values
        invariant emitted + Emitted(values, order[i..]) == Emitted(values, order)
      {
        EmittedAt(values, order, i);
        var samples := values[order[i]];
        if |samples| == 0 {
          return;
        }
        emitted := emitted + [Gauge(order[i], Sum(samples) / |samples|)];
      }
      assert order[|order|..] == [];
    }

    /** `read_serial_bytes`, given the serial buffer and a ranking of metric names that
        fixes the order in which the dict of values is iterated. A frame whose byte tokens
        are not all integers in 0..255 is skipped; otherwise the node id and the bytes, read
        as characters, form the line handed to `add_values`. */
    method ReadSerialBytes(buffer: Option<string>, rank: seq<string>) returns (outcome: CycleOutcome)
      requires Valid()
      requires forall i, j :: 0 <= i < j < |rank| ==> rank[i] != rank[j]
      requires forall k :: k in AllMetrics(dataDefinition) ==> k in rank
      modifies this
      ensures Valid()
      ensures match Collect(dataDefinition, shift, FormattedLines(shift, buffer), map[])
        case IndexError =>
          outcome == Crashed && lastValues == old(lastValues)
        case Done(collected) =>
          lastValues == Fallback(collected, old(lastValues))
          && outcome == Dispatched(Emitted(lastValues, Ordered(rank, lastValues.Keys)))
    {
      var frames := GetFormattedLine(buffer);
      var values: Samples := map[];
      for i := 0 to |frames|
        invariant Collect(dataDefinition, shift, frames, map[])
          == Collect(dataDefinition, shift, frames[i..], values)
        invariant lastValues == old(lastValues)
      {
        CollectAt(dataDefinition, shift, frames, i, values);
        var bytesLine := ParseBytes(SliceFrom(frames[i], shift));
        if bytesLine.None? {
          continue;
        }
        if |frames[i]| < 2 {
          return Crashed;
        }
        var step := AddValues(SyntheticTokens(frames[i][1], bytesLine.value), values);
        if step.IndexError? {
          return Crashed;
        }
        values := step.value;
      }
      assert frames[|frames|..] == [];
      CollectGrows(dataDefinition, shift, frames, map[]);
      if |values| == 0 {
        values := lastValues;
      } else {
        lastValues := values;
      }
      OrderedEnumerates(rank, values.Keys);
      var emitted := Dispatch(values, Ordered(rank, values.Keys));
      return Dispatched(emitted);
    }
  }
}
