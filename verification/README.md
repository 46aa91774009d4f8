# arduino.py read cycle, modelled in Dafny

`arduino.py` is a collectd Python plugin. It reads frames that an Arduino gateway writes to a
serial port. A frame is a line such as `OK <node> <b1> <b2> ...`, where the tokens after the
header are byte values. The plugin re-reads those bytes as characters, giving a line whose
first token is the node id. It picks the metrics that `dataDefinition` names for that node by
token position. It collects a list of integer samples per metric over one read cycle. Finally
it hands collectd one gauge per metric, carrying the integer mean of the samples. When a cycle
creates no metric key at all, the values of the last productive cycle are sent again.

The project has three modules:

- `PyText` (`pytext.dfy`) gives the Python 2 `str` built-ins the plugin calls, over byte
  strings:
  - `strip()`, `split(c)` and `split()`;
  - `replace(c, '')` and `filter(None, ...)`;
  - `int(s)`.

  The plugin itself never calls `c.join(...)` or `str(n)` on a number. `Join` and
  `DecimalString`/`IntString` are there as the inverses of `split(c)` and `int(s)`, to state
  round trips. It proves, among other things:
  - `split(c)` and `join` undo each other;
  - `split()` yields the whitespace-free runs of its input, in order;
  - `int(str(n)) == n`.
- `ArduinoSpec` (`arduino_spec.dfy`) states, as functions, what one read cycle computes:
  - frame validation (`isLineOK`) and the frame list of `getFormattedLine`;
  - the byte re-encoding of a frame;
  - `add_values`;
  - the loop of `read_serial_bytes` and its stale-value fallback;
  - the gauges `dispatch` emits.

  It also holds the lemmas about them: round trips, the shape of `add_values`'s result, growth
  of the sample lists, order independence of the mean, and where emission stops.
- `Arduino` (`arduino.dfy`) is the class `ArduinoReadSerial`:
  - its fields `dataDefinition`, `shift` and `lastValues`;
  - the methods `GetFormattedLine`, `ReadSerialBytes`, `AddValues` and `Dispatch`, for
    `getFormattedLine`, `read_serial_bytes`, `add_values` and `dispatch`. Each keeps the
    source's loop and is proved equal to the function that specifies it.

  `isLineOK` only computes a value, so it is the function `ArduinoSpec.IsLineOK`.
  `ReadSerialBytes` and `Dispatch` update `lastValues` in place, as the source does.

Things the environment decides are parameters:
- The bytes that `openAndFirstCheck` returns are the `buffer` parameter. `None` stands for
  the `False` it returns when the port cannot be opened or has nothing waiting.
- The order in which a Python 2 dict is iterated is fixed by a `rank` parameter. This is a
  repetition-free sequence listing every metric name; `dispatch` visits the keys in rank order.
- `add_values` visits the node's table in an arbitrary order (`:|`). Its postcondition pins
  down the result, so the result does not depend on that order.

Python 2 semantics that are written out:
- `str` is a byte string. `str(bytearray(...))` turns each byte into one character.
- `split()` and `strip()` use the C-locale whitespace set: space, `\t`, `\n`, `\r`, `\v`, `\f`.
- `int()` skips surrounding whitespace and accepts a sign, optionally followed by whitespace.
  Its integers are unbounded.
- A negative list index counts from the end. A slice `s[k:]` is clipped.
- `/` on integers rounds down.
- An `IndexError` nothing catches ends `read_serial_bytes` before anything is cached or
  dispatched. The model calls this `Crashed`. It arises in three ways:
  - `lineSplitted[1]` on the one-token frame `OK` when `shift == 1`. With `shift <= 0` the
    byte slice holds `OK`, so `int` raises ValueError and the frame is skipped instead;
  - `lineSplitted[0]` on a re-encoded line that splits into nothing;
  - a negative position beyond the start of the line.

Where the code and the comments or expectations around it differ, the model follows the code:
- Metric positions are 0-based indexes into the re-encoded line, and the node id is token 0.
  They are not positions in the raw frame. The comment at arduino.py:153-161 gives the
  example `OK 2 3 4` with a tension of 4 at position 2. That describes a plain-text frame
  whose tokens are the numbers themselves, which this file no longer reads: it reads byte
  tokens and re-encodes them (arduino.py:105-110).
- `dataDefinition` must be node-keyed. `add_values` looks the metric table up by the node id,
  token 0 of the re-encoded line (arduino.py:123-126).
- A cycle can create a key whose sample list stays empty, because `int()` failed. Such a
  cycle still overwrites `lastValues`. `dispatch` then stops at the first empty list, so it
  may emit nothing at all.
- Byte values are re-read as characters and then split at whitespace. So a frame whose bytes
  are, say, 10, 20 and 30 does not give back the numbers 10, 20 and 30: byte 10 is `\n`.
  `ByteFrameNewline` shows this on the frame `OK N 10 20 30`: its metric at position 1 ends
  up with no sample at all. `ByteFrameExtracts` states the round trip that does hold: bytes
  that spell decimal numbers separated by spaces.

## Model

| member | source | states |
|---|---|---|
| PyText.StripLeftSpec | arduino.py:95 | `lstrip()` leaves a suffix of its input that does not start with whitespace, and what it removed is all whitespace |
| PyText.StripRightSpec | arduino.py:95 | `rstrip()` leaves a prefix of its input that does not end with whitespace, and what it removed is all whitespace |
| PyText.Strip | arduino.py:95 | defines `strip()` as `rstrip()` after `lstrip()`; its properties are `StripSpec` and `StripLacks` |
| PyText.StripSpec | arduino.py:95 | `strip()` is no longer than its input and neither starts nor ends with whitespace; a string without whitespace at either end is left unchanged |
| PyText.StripLacks | arduino.py:95 | `strip()` introduces no character its input lacks |
| PyText.SplitOn | arduino.py:90 | `split(c)` always yields at least one piece |
| PyText.SplitOnUnseparated | arduino.py:90 | no piece of a split holds the separator |
| PyText.JoinSplit | arduino.py:90 | joining the pieces of `s.split(c)` with `c` gives `s` back |
| PyText.SplitJoin | arduino.py:95 | splitting undoes a join when no piece holds the separator |
| PyText.SplitOnLacks | arduino.py:95 | a character absent from a string is absent from every piece of its split |
| PyText.JoinLacks | arduino.py:109 | a character that is in no piece and is not the joining character is absent from the joined string |
| PyText.SplitOnSeparator | arduino.py:110 | splitting `a + [w] + b` at a separator `w` gives the pieces of `a` followed by the pieces of `b` |
| PyText.DropEmpty | arduino.py:95 | defines `filter(None, ps)` on a list of strings; its properties are `DropEmptySpec`, `DropEmptyAppend` and `DropEmptyCounts` |
| PyText.DropEmptySpec | arduino.py:95 | `filter(None, ps)` keeps exactly the non-empty pieces and all of `ps` when none is empty |
| PyText.DropEmptyAppend | arduino.py:95 | `filter(None, a + b)` is `filter(None, a) + filter(None, b)`, so the kept pieces stay in order |
| PyText.DropEmptyCounts | arduino.py:95 | `filter(None, ps)` holds each non-empty piece exactly as often as `ps` does, and no empty piece |
| PyText.SplitWhitespace | arduino.py:110 | defines `s.split()` as the non-empty pieces of a split at every whitespace character; its properties are the four lemmas below |
| PyText.SplitWhitespaceSpec | arduino.py:110 | every token of `s.split()` is non-empty and holds no whitespace |
| PyText.SplitWhitespaceSeparator | arduino.py:110 | `(a + w + b).split()` for a whitespace character `w` is `a.split() + b.split()` |
| PyText.SplitWhitespaceWord | arduino.py:110 | a whitespace-free string splits into itself alone, or into nothing when empty |
| PyText.SplitWhitespaceJoin | arduino.py:110 | `' '.join(ts).split() == ts` for non-empty tokens without whitespace |
| PyText.Remove | arduino.py:91 | defines `replace(c, '')`; its properties are the four lemmas below |
| PyText.RemoveCounts | arduino.py:91 | `replace(c, '')` removes every occurrence of `c` and keeps every other character with its multiplicity |
| PyText.RemoveAbsent | arduino.py:91 | `replace(c, '')` leaves a string without `c` unchanged |
| PyText.RemoveSpec | arduino.py:91 | the result lacks `c`, has the same multiset of the other characters, and equals the input when the input lacks `c` |
| PyText.RemoveAppend | arduino.py:109 | `replace` distributes over concatenation |
| PyText.DecimalString | arduino.py:105 | the text `int()` reads back as a natural number (the plugin itself does not call `str(n)`): a run of decimal digits without a leading zero; see `ParseDecimalString` |
| PyText.IntString | arduino.py:105 | the text `int()` reads back as any integer: non-empty, without whitespace or nul; see `ParseIntString` |
| PyText.DecimalValueOfString | arduino.py:105 | the digits of `str(n)` denote `n` |
| PyText.ParseInt | arduino.py:105 | defines `int(s)` in base 10, with `None` for the ValueError; its properties are the five lemmas below |
| PyText.ParseIntSpec | arduino.py:134 | `int(s)` ignores surrounding whitespace, and accepts only text that starts with a digit or sign and ends with a digit |
| PyText.ParseIntDecimal | arduino.py:105 | `int(s)` of a run of decimal digits is the number they denote |
| PyText.ParseDecimalString | arduino.py:105 | `int(str(n)) == n` for natural `n` |
| PyText.ParseNegative | arduino.py:105 | `int('-' + digits)` is the negated value of the digits |
| PyText.ParseIntString | arduino.py:105 | `int(str(n)) == n` for every integer `n` |
| ArduinoSpec.IsLineOK | arduino.py:65-73 | a token list is a frame iff it is non-empty, starts with `OK` and has at least `shift` tokens |
| ArduinoSpec.Tokenize | arduino.py:95 | defines `filter(None, line.strip().split(' '))`; its property is `TokenizeLacks` |
| ArduinoSpec.LineFrame | arduino.py:91-98 | defines one iteration of `getFormattedLine`'s loop: the segment's tokens when it is a frame; its property is `LineFrameWellFormed` |
| ArduinoSpec.Frames | arduino.py:90-98 | defines the frames of a list of segments, in order; its properties are `FramesSomes`, `FramesWellFormed` and `FramesAllKept` |
| ArduinoSpec.FormattedLines | arduino.py:85-99 | defines `getFormattedLine`'s result; its properties are `FormattedLinesWellFormed` and `FormattedLinesRoundTrip` |
| ArduinoSpec.FramesSomes | arduino.py:90-98 | the frame list keeps, in segment order, exactly the segments that parse as frames |
| ArduinoSpec.TokenizeLacks | arduino.py:95 | the tokens of a line are non-empty, hold no space, and hold no character the line lacks |
| ArduinoSpec.LineFrameWellFormed | arduino.py:91-98 | a segment kept as a frame passes `isLineOK` and its tokens hold no space, nul or newline |
| ArduinoSpec.FramesWellFormed | arduino.py:90-99 | every frame kept from newline-free segments is well formed |
| ArduinoSpec.FormattedLinesWellFormed | arduino.py:85-99 | every element `getFormattedLine` returns is a well-formed frame; no buffer, or an empty one, gives no frame |
| ArduinoSpec.FrameLineRoundTrip | arduino.py:91-98 | a frame written as one line with single spaces is read back as the same frame |
| ArduinoSpec.FramesAllKept | arduino.py:90-98 | segments that each parse as a frame give exactly those frames, in order |
| ArduinoSpec.FramesOfFrameLines | arduino.py:90-98 | frames written one per line are each read back |
| ArduinoSpec.FormattedLinesRoundTrip | arduino.py:85-99 | a buffer holding frames one per `\n`-separated line yields exactly those frames, in order |
| ArduinoSpec.SliceFrom | arduino.py:105 | `s[k:]` is a suffix of `s`: the last `|s|-k` elements for `0 <= k <= |s|`, nothing beyond the end, the last `-k` (clipped) for negative `k` |
| ArduinoSpec.ParseByte | arduino.py:104-108 | a token is accepted as a byte iff `int` parses it to a value in 0..255, and then that is the value |
| ArduinoSpec.ParseBytes | arduino.py:104-108 | the byte tokens convert iff each token is a byte; the result has one value per token, each below 256 and equal to `int(token)` |
| ArduinoSpec.BytesText | arduino.py:109 | `str(bytearray)` has one character per byte, whose code is that byte |
| ArduinoSpec.SyntheticTokens | arduino.py:109-110 | defines the tokens of the re-encoded line; its properties are the three lemmas below |
| ArduinoSpec.SyntheticTokensSpec | arduino.py:109-110 | the re-encoded line splits into non-empty tokens without whitespace or nul |
| ArduinoSpec.SyntheticTokensSplit | arduino.py:109-110 | the re-encoded line splits into the tokens of the node id followed by the tokens of the nul-free byte text |
| ArduinoSpec.SyntheticTokensNodeFirst | arduino.py:109-110 | for a non-empty node id without whitespace or nul, the node id is the first token, followed by the tokens of the nul-free byte text |
| ArduinoSpec.ParseByteTokens | arduino.py:105 | bytes written as `str(b)` tokens convert back to the same bytes |
| ArduinoSpec.DecimalBytesText | arduino.py:109 | bytes spelling decimal numbers become that decimal text again, which holds no nul |
| ArduinoSpec.SyntheticTokensOfDecimals | arduino.py:109-110 | when a frame's bytes spell space-separated decimal numbers, the re-encoded line splits into the node id followed by those numbers' decimal strings |
| ArduinoSpec.Reaches | arduino.py:129 | defines the length test `len(lineSplitted) >= position + 1`; its properties are `ReachesIndexable` and `ReachedStep` |
| ArduinoSpec.PyIndex | arduino.py:134 | defines Python's `lineSplitted[position]`, a negative position counting from the end; its properties are `PyIndexSlice` and `ReachesIndexable` |
| ArduinoSpec.ReachesIndexable | arduino.py:129-134 | a position passes the length test and is not below `-len` iff indexing with it raises no IndexError; so the only position that passes the test and still raises is a negative one beyond the start |
| ArduinoSpec.PyIndexSlice | arduino.py:134 | whenever `tokens[position]` does not raise, it is the first element of `tokens[position:]`, which is non-empty |
| ArduinoSpec.Sample | arduino.py:133-136 | defines what `values[key].append(int(token))` adds under the ValueError catch: `[int(token)]`, or nothing; its property is `SampleSpec` |
| ArduinoSpec.SampleSpec | arduino.py:133-136 | `append(int(token))` adds exactly the parsed integer, or nothing exactly when `int` raises ValueError |
| ArduinoSpec.Additions | arduino.py:127-136 | exactly the metrics the line reaches without an IndexError receive an addition |
| ArduinoSpec.GrownStep | arduino.py:131-133 | handling one more metric changes that metric's list alone, creating it as `[]` when missing and appending its addition |
| ArduinoSpec.ReachedStep | arduino.py:129-130 | a handled metric joins the reached set exactly when the line is long enough for its position |
| ArduinoSpec.ReachedAdded | arduino.py:129-133 | without an IndexError every reached metric has an addition |
| ArduinoSpec.CreateThenAppend | arduino.py:131-133 | creating a missing key with `[]` and appending to it appends to the samples so far |
| ArduinoSpec.AddedValues | arduino.py:120-136 | defines `add_values`' result: the updated values, or the IndexError; its properties are the three lemmas below and `AddedFromNothing` |
| ArduinoSpec.AddedValuesRaises | arduino.py:120-136 | `add_values` raises IndexError iff the line is empty, or the node is known and one of its metrics has a negative position beyond the line's start |
| ArduinoSpec.AddedValuesUnknownNode | arduino.py:123-125 | an unknown node id leaves the values unchanged |
| ArduinoSpec.AddedValuesKnownNode | arduino.py:126-136 | only metrics of the node's table become keys; unreached or foreign metrics keep their entry or absence; each reached metric becomes a key and gains at most one sample, `int(tokens[position])` |
| ArduinoSpec.FrameStep | arduino.py:104-112 | defines one iteration of `read_serial_bytes`' loop; its properties are `BadByteSkipsFrame`, `ByteFrameStep`, `ByteFrameExtracts` and `FrameStepGrows` |
| ArduinoSpec.Collect | arduino.py:103-112 | defines the loop over all frames, stopping at the first IndexError; its properties are `CollectAt` and `CollectGrows` |
| ArduinoSpec.CollectAt | arduino.py:103-112 | the loop over frames from frame `i` on is frame `i`'s step followed by the rest, stopping at an IndexError |
| ArduinoSpec.BadByteSkipsFrame | arduino.py:104-108 | a frame with any byte token that is not an integer in 0..255 adds nothing |
| ArduinoSpec.DecimalSamples | arduino.py:134 | on the line of a node id and decimal numbers, the token at each position `p >= 1` samples the `p`-th number |
| ArduinoSpec.AddedFromNothing | arduino.py:120-136 | from no values, a line reaching every metric of its node gives each metric exactly the sample of its token, and no other key |
| ArduinoSpec.AddedDecimals | arduino.py:120-136 | from no values, a decimal line gives each metric the number at its position |
| ArduinoSpec.ByteFrameExtracts | arduino.py:101-112 | a frame `OK <node> <bytes>` whose bytes spell decimal numbers passes `isLineOK` and gives each metric of the node the number at its position, node id at 0 |
| ArduinoSpec.ByteFrameStep | arduino.py:104-112 | a frame `OK <node> <str(b) ...>` with `shift == 2` hands `add_values` the re-encoded tokens of its bytes |
| ArduinoSpec.NewlineByteTokens | arduino.py:109-110 | the bytes 10, 20, 30 re-encode to the tokens `N` and one token of the characters 20 and 30: byte 10 is a newline and splits nothing back |
| ArduinoSpec.NewlineByteSample | arduino.py:134-136 | `int` of the characters 20 and 30 raises ValueError, so it adds no sample |
| ArduinoSpec.NewlineAdded | arduino.py:120-136 | for node `N` with metric `v` at position 1, that token list creates `v` with no sample |
| ArduinoSpec.ByteFrameNewline | arduino.py:104-112 | the frame `OK N 10 20 30` leaves metric `v` with an empty sample list rather than the numbers 10, 20 and 30 |
| ArduinoSpec.FrameStepGrows | arduino.py:103-112 | one frame only appends to existing sample lists and adds only metric names of the tables |
| ArduinoSpec.CollectGrows | arduino.py:101-112 | over all frames, existing sample lists are prefixes of their final versions and only metric names of the tables become keys |
| ArduinoSpec.Fallback | arduino.py:113-116 | a cycle that created no key reuses the previous values; otherwise its own values are used |
| ArduinoSpec.Sum | arduino.py:149 | defines `reduce(lambda x, y: x + y, samples)`; its properties are `SumAppend`, `SumPermutation` and the bound in `Mean` |
| ArduinoSpec.Mean | arduino.py:149 | the integer mean `m` rounds down: `m * n <= sum < (m + 1) * n` |
| ArduinoSpec.SumAppend | arduino.py:149 | the sum of a concatenation is the sum of the sums |
| ArduinoSpec.SumPermutation | arduino.py:149 | the sum does not depend on the order of the samples |
| ArduinoSpec.MeanPermutation | arduino.py:149 | a metric's mean does not depend on the order its samples arrived in |
| ArduinoSpec.Emitted | arduino.py:140-150 | defines the gauges `dispatch` emits for an iteration order; its properties are `EmittedAt` and `EmittedStopsAtFirstEmpty` |
| ArduinoSpec.EmittedAt | arduino.py:140-150 | from position `i` on, emission is the gauge of metric `i` followed by the rest, or stops when that metric has no samples |
| ArduinoSpec.EmittedStopsAtFirstEmpty | arduino.py:140-150 | the i-th gauge is the mean of the i-th metric in iteration order; emission stops exactly at the first metric with no samples |
| ArduinoSpec.Ordered | arduino.py:140 | the iteration order holds exactly the ranked names that are keys |
| ArduinoSpec.OrderedDistinct | arduino.py:140 | the iteration order never visits a key twice |
| ArduinoSpec.OrderedEnumerates | arduino.py:140 | filtering a repetition-free ranking of all names lists every key exactly once, as `iteritems` does |
| Arduino.ArduinoReadSerial.constructor | arduino.py:8-18 | stores `dataDefinition` and `shift` (default 2) and starts with empty `lastValues` |
| Arduino.ArduinoReadSerial.GetFormattedLine | arduino.py:85-99 | the loop over the `\n`-separated segments returns exactly the frames `FormattedLines` specifies, each one well formed |
| Arduino.ArduinoReadSerial.AddValues | arduino.py:120-136 | the loop over the node's table, in any order, gives exactly the specified new values or the IndexError |
| Arduino.ArduinoReadSerial.Dispatch | arduino.py:138-150 | caches the values in `lastValues`, keeping the object valid when only metric names are cached, and emits the specified gauges, stopping at the first empty list |
| Arduino.ArduinoReadSerial.ReadSerialBytes | arduino.py:101-118 | on an IndexError nothing is cached or emitted; otherwise `lastValues` becomes the cycle's values or the previous ones, and the gauges are emitted in dict order; only metric names are ever cached |

## Left out

- The `config` and `init` callbacks (arduino.py:20-33) are not modelled. Neither are the
  serial port handling in `open` and `openAndFirstCheck` (arduino.py:42-63, 75-83), the
  logging helpers (arduino.py:34-40), or the module-level `dataDefinition` instance and its
  registration with collectd (arduino.py:163-168). They are I/O and
  configuration; `openAndFirstCheck`'s result is the `buffer` parameter.
- The fields `plugin_name`, `speed`, `device`, `ser`, `debug`, `timeout` and
  `plugin_instance` are not modelled. Only the serial, logging, collectd-emission and
  registration code reads them: `plugin_name` at arduino.py:35, 40, 145 and 166.
  `plugin_instance` is never read.
- Arduino.ArduinoReadSerial.Dispatch: the `collectd.Values` object built per metric is
  reduced to a `Gauge` of the key and the mean. Its plugin name, type `gauge` and the
  `dispatch()` call into collectd are not modelled.
- Arduino.ArduinoReadSerial.AddValues: the `values` dict is changed in place in the
  source. Here it is passed and returned as a value. The partly updated dict that an
  IndexError leaves behind is not modelled, because `read_serial_bytes` discards it.
- Arduino.ArduinoReadSerial.ReadSerialBytes: dict iteration order is supplied through
  `rank` rather than derived from Python's hashing. The exception an uncaught IndexError
  would show in collectd's log is reduced to `Crashed`.
- Byte strings: the serial buffer is a `string` whose characters are not constrained to be
  below 256. The functions accept any character, so every byte string the port can deliver
  is covered, and so are strings it cannot deliver.
- The warning and debug messages (`log_warning`, `log_debug`) are not modelled. The ValueError
  they report is modelled as a skipped frame or a skipped sample.
