/**
 * The batch parameter file reader (`read_params_from_file`). A file is a list of
 * lines; each line is stripped, blank lines are skipped, a `---` line closes the
 * current parameter set, and any other line must be `key: value` with exactly one
 * colon, or it is skipped. The file itself (opening, read errors) is not modelled:
 * the reader works on the lines already in memory.
 */
module ParamFile {
  import opened Optional
  import opened PyStr

  /** One parameter set: the dict the reader fills from one block. */
  type ParamSet = map<string, string>

  /** How the reader treats one line. */
  datatype LineKind = Blank | Separator | Entry(key: string, value: string) | Malformed

  const BlockSeparator: string := "---"

  /**
   * Classification of one line's stripped text. It is an entry exactly when it
   * holds one colon; key and value are stripped again.
   */
  function ClassifyText(t: string): LineKind
  {
    if t == [] then Blank
    else if t == BlockSeparator then Separator
    else
      var parts := Split(t, ':');
      if |parts| != 2 then Malformed
      else Entry(Strip(parts[0]), Strip(parts[1]))
  }

  /** Classification of one line: the reader strips it first. */
  function Classify(line: string): LineKind
  {
    ClassifyText(Strip(line))
  }

  /**
   * A line is blank exactly when it is all whitespace, a separator exactly when it
   * strips to `---`, and malformed exactly when it is neither and its stripped
   * text does not hold exactly one colon.
   */
  lemma ClassifyKinds(line: string)
    ensures Classify(line) == Blank <==> AllSpace(line)
    ensures Classify(line) == Separator <==> Strip(line) == BlockSeparator
    ensures Classify(line) == Malformed
        <==> !AllSpace(line) && Strip(line) != BlockSeparator && Count(Strip(line), ':') != 1
  {
  }

  /** A line reading `k:v` around its one colon is the entry `Strip(k) -> Strip(v)`. */
  lemma ClassifyEntry(line: string, k: string, v: string)
    requires Strip(line) == k + [':'] + v
    requires ':' !in k && ':' !in v
    ensures Classify(line) == Entry(Strip(k), Strip(v))
  {
    var t := Strip(line);
    assert t[|k|] == ':';
    SplitOnce(k, v, ':');
  }

  /** Conversely, every entry line has that shape. */
  lemma ClassifyEntryShape(line: string)
    requires Classify(line).Entry?
    ensures exists k, v :: ':' !in k && ':' !in v && Strip(line) == k + [':'] + v
                           && Classify(line) == Entry(Strip(k), Strip(v))
  {
    var t := Strip(line);
    var parts := Split(t, ':');
    assert Join(parts, ':') == parts[0] + [':'] + parts[1];
  }

  /** Classification already strips, so a stripped line classifies the same. */
  lemma ClassifyStripped(line: string)
    ensures Classify(Strip(line)) == Classify(line)
  {
    StripIdempotent(line);
  }

  /** The classification of every line of a file, in order. */
  function Kinds(lines: seq<string>): (kinds: seq<LineKind>)
    ensures |kinds| == |lines|
    decreases |lines|
  {
    if lines == [] then []
    else Kinds(lines[..|lines| - 1]) + [Classify(lines[|lines| - 1])]
  }

  lemma {:induction false} KindsConcat(a: seq<string>, b: seq<string>)
    ensures Kinds(a + b) == Kinds(a) + Kinds(b)
    decreases |b|
  {
    if b == [] {
      assert a + b == a;
    } else {
      var n := |b| - 1;
      assert (a + b)[..|a + b| - 1] == a + b[..n];
      assert (a + b)[|a + b| - 1] == b[n];
      KindsConcat(a, b[..n]);
    }
  }

  /** What the reader holds between lines: the finished sets and the open one. */
  datatype ReaderState = ReaderState(sets: seq<ParamSet>, current: ParamSet)

  const Start := ReaderState([], map[])

  /** The effect of one classified line on the reader. */
  function Step(st: ReaderState, kind: LineKind): ReaderState
  {
    match kind
    case Blank => st
    case Separator => ReaderState(st.sets + [st.current], map[])
    case Malformed => st
    case Entry(k, v) => st.(current := st.current[k := v])
  }

  /** The reader's state after the classified lines, in order, starting from `st`. */
  function Run(st: ReaderState, kinds: seq<LineKind>): ReaderState
    decreases |kinds|
  {
    if kinds == [] then st
    else Step(Run(st, kinds[..|kinds| - 1]), kinds[|kinds| - 1])
  }

  /** The sets read from classified lines: the open set is kept only when non-empty. */
  function Finish(st: ReaderState): seq<ParamSet>
  {
    if st.current != map[] then st.sets + [st.current] else st.sets
  }

  /** The parameter sets of a file. */
  function Parse(lines: seq<string>): seq<ParamSet>
  {
    Finish(Run(Start, Kinds(lines)))
  }

  /** The reader as the source writes it: one pass over the lines. */
  method ReadParams(lines: seq<string>) returns (paramSets: seq<ParamSet>)
    ensures paramSets == Parse(lines)
  {
    paramSets := [];
    var paramSet: ParamSet := map[];
    for i := 0 to |lines|
      invariant Run(Start, Kinds(lines[..i])) == ReaderState(paramSets, paramSet)
    {
      assert lines[..i + 1][..i] == lines[..i];
      assert Kinds(lines[..i + 1]) == Kinds(lines[..i]) + [Classify(lines[i])];
      var line := Strip(lines[i]);
      if line == [] {
        continue;
      }
      if line == BlockSeparator {
        paramSets := paramSets + [paramSet];
        paramSet := map[];
        continue;
      }
      var parts := Split(line, ':');
      if |parts| != 2 {
        continue;
      }
      var key, value := parts[0], parts[1];
      paramSet := paramSet[Strip(key) := Strip(value)];
    }
    assert lines[..|lines|] == lines;
    if paramSet != map[] {
      paramSets := paramSets + [paramSet];
    }
  }

  /** Running two stretches of lines is running their concatenation. */
  lemma {:induction false} RunAppend(st: ReaderState, a: seq<LineKind>, b: seq<LineKind>)
    ensures Run(st, a + b) == Run(Run(st, a), b)
    decreases |b|
  {
    if b == [] {
      assert a + b == a;
    } else {
      var n := |b| - 1;
      assert (a + b)[..|a + b| - 1] == a + b[..n];
      RunAppend(st, a, b[..n]);
    }
  }

  /**
   * A blank line, or one that is not `key: value` with exactly one colon, changes
   * nothing: removing it anywhere in the file gives the same parameter sets.
   */
  lemma SkippedLineIrrelevant(a: seq<string>, line: string, b: seq<string>)
    requires Classify(line) == Blank || Classify(line) == Malformed
    ensures Parse(a + [line] + b) == Parse(a + b)
  {
    KindsConcat(a + [line], b);
    KindsConcat(a, [line]);
    KindsConcat(a, b);
    var ka, kb := Kinds(a), Kinds(b);
    RunAppend(Start, ka + [Classify(line)], kb);
    RunAppend(Start, ka, kb);
    assert (ka + [Classify(line)])[..|ka|] == ka;
  }

  function StripAll(lines: seq<string>): (r: seq<string>)
    ensures |r| == |lines|
  {
    seq(|lines|, i requires 0 <= i < |lines| => Strip(lines[i]))
  }

  lemma {:induction false} KindsStripped(lines: seq<string>)
    ensures Kinds(StripAll(lines)) == Kinds(lines)
    decreases |lines|
  {
    if lines != [] {
      var n := |lines| - 1;
      assert StripAll(lines)[..n] == StripAll(lines[..n]);
      KindsStripped(lines[..n]);
      ClassifyStripped(lines[n]);
    }
  }

  /** Every line is stripped before it is looked at: pre-stripping the file changes nothing. */
  lemma ParseStripped(lines: seq<string>)
    ensures Parse(StripAll(lines)) == Parse(lines)
  {
    KindsStripped(lines);
  }

  /** A reader whose open set is empty simply appends the sets of what follows. */
  lemma {:induction false} RunAfterClose(pre: seq<ParamSet>, b: seq<LineKind>)
    ensures Run(ReaderState(pre, map[]), b)
         == ReaderState(pre + Run(Start, b).sets, Run(Start, b).current)
    decreases |b|
  {
    if b != [] {
      RunAfterClose(pre, b[..|b| - 1]);
      var inner := Run(Start, b[..|b| - 1]);
      assert pre + (inner.sets + [inner.current]) == (pre + inner.sets) + [inner.current];
    }
  }

  /** On classified lines: a separator splits the reading into two independent halves. */
  lemma RunAtSeparator(ka: seq<LineKind>, kb: seq<LineKind>)
    ensures Finish(Run(Start, ka + [Separator] + kb))
         == (Run(Start, ka).sets + [Run(Start, ka).current]) + Finish(Run(Start, kb))
  {
    var st := Run(Start, ka);
    var pre := st.sets + [st.current];
    RunAppend(Start, ka + [Separator], kb);
    RunClosed(ka);
    RunAfterClose(pre, kb);
    var rest := Run(Start, kb);
    assert Run(Start, ka + [Separator] + kb) == ReaderState(pre + rest.sets, rest.current);
    if rest.current != map[] {
      assert (pre + rest.sets) + [rest.current] == pre + (rest.sets + [rest.current]);
    }
  }

  /**
   * A `---` line closes the open set even when it is empty: the file up to it
   * contributes the sets read so far plus that block, the rest is read afresh.
   */
  lemma ParseAtSeparator(a: seq<string>, sep: string, b: seq<string>)
    requires Classify(sep) == Separator
    ensures Parse(a + [sep]) == Run(Start, Kinds(a)).sets + [Run(Start, Kinds(a)).current]
    ensures Parse(a + [sep] + b) == Parse(a + [sep]) + Parse(b)
  {
    var ka, kb := Kinds(a), Kinds(b);
    KindsConcat(a, [sep]);
    KindsConcat(a + [sep], b);
    assert Kinds(a + [sep]) == ka + [Separator];
    RunClosed(ka);
    RunAtSeparator(ka, kb);
  }

  lemma RunClosed(ka: seq<LineKind>)
    ensures Run(Start, ka + [Separator])
         == ReaderState(Run(Start, ka).sets + [Run(Start, ka).current], map[])
  {
    assert (ka + [Separator])[..|ka|] == ka;
  }

  // ---------------------------------------------------------------------
  // A reference reading of the file: cut it into blocks at `---` lines and
  // give each key the value of its last entry line in the block.
  // ---------------------------------------------------------------------

  /** The blocks of a classified file: the lines between `---` lines (at least one block). */
  function Segments(kinds: seq<LineKind>): (segs: seq<seq<LineKind>>)
    ensures |segs| >= 1
    decreases |kinds|
  {
    if kinds == [] then [[]]
    else
      var segs := Segments(kinds[..|kinds| - 1]);
      var kind := kinds[|kinds| - 1];
      if kind == Separator then segs + [[]]
      else segs[..|segs| - 1] + [segs[|segs| - 1] + [kind]]
  }

  /** The value of the last entry line for `key` in a block, if there is one. */
  function LastValue(block: seq<LineKind>, key: string): Option<string>
    decreases |block|
  {
    if block == [] then None
    else
      var kind := block[|block| - 1];
      if kind.Entry? && kind.key == key then Some(kind.value)
      else LastValue(block[..|block| - 1], key)
  }

  /** `params` holds exactly the keys of `block`, each with its last value. */
  ghost predicate Agrees(params: ParamSet, block: seq<LineKind>)
  {
    forall key :: (key in params <==> LastValue(block, key).Some?)
                  && (key in params ==> params[key] == LastValue(block, key).value)
  }

  predicate HasEntry(block: seq<LineKind>)
  {
    exists i :: 0 <= i < |block| && block[i].Entry?
  }

  function SeparatorCount(kinds: seq<LineKind>): nat
    decreases |kinds|
  {
    if kinds == [] then 0
    else SeparatorCount(kinds[..|kinds| - 1]) + (if kinds[|kinds| - 1] == Separator then 1 else 0)
  }

  /** There is one block more than there are `---` lines. */
  lemma {:induction false} SegmentCount(kinds: seq<LineKind>)
    ensures |Segments(kinds)| == SeparatorCount(kinds) + 1
    decreases |kinds|
  {
    if kinds != [] {
      SegmentCount(kinds[..|kinds| - 1]);
    }
  }

  /** The reader state `st` is the reference reading of the blocks `segs`. */
  ghost predicate Matches(st: ReaderState, segs: seq<seq<LineKind>>)
  {
    && |segs| == |st.sets| + 1
    && (forall i :: 0 <= i < |st.sets| ==> Agrees(st.sets[i], segs[i]))
    && Agrees(st.current, segs[|segs| - 1])
  }

  lemma SeparatorMatches(st: ReaderState, segs: seq<seq<LineKind>>)
    requires Matches(st, segs)
    ensures Matches(Step(st, Separator), segs + [[]])
  {
    var st', segs' := Step(st, Separator), segs + [[]];
    forall i | 0 <= i < |st'.sets| ensures Agrees(st'.sets[i], segs'[i]) {
      if i < |st.sets| {
        assert st'.sets[i] == st.sets[i] && segs'[i] == segs[i];
      }
    }
  }

  /** The open set after a non-separator line, against its block grown by that line. */
  lemma CurrentAgrees(cur: ParamSet, block: seq<LineKind>, kind: LineKind)
    requires Agrees(cur, block) && kind != Separator
    ensures Agrees(Step(ReaderState([], cur), kind).current, block + [kind])
  {
    var cur' := Step(ReaderState([], cur), kind).current;
    assert (block + [kind])[..|block|] == block;
    forall key ensures (key in cur' <==> LastValue(block + [kind], key).Some?)
                       && (key in cur' ==> cur'[key] == LastValue(block + [kind], key).value) {
      assert key in cur && LastValue(block, key).Some? ==> cur[key] == LastValue(block, key).value;
    }
  }

  lemma OtherLineMatches(st: ReaderState, segs: seq<seq<LineKind>>, kind: LineKind)
    requires Matches(st, segs) && kind != Separator
    ensures Matches(Step(st, kind), segs[..|segs| - 1] + [segs[|segs| - 1] + [kind]])
  {
    var last0 := segs[|segs| - 1];
    CurrentAgrees(st.current, last0, kind);
    var cur := Step(ReaderState([], st.current), kind).current;
    assert Step(st, kind) == ReaderState(st.sets, cur);
    var segs' := segs[..|segs| - 1] + [last0 + [kind]];
    assert segs'[|segs'| - 1] == last0 + [kind];
    forall i | 0 <= i < |st.sets| ensures Agrees(st.sets[i], segs'[i]) {
      assert segs'[i] == segs[i];
    }
  }

  lemma {:induction false} RunBySegments(kinds: seq<LineKind>)
    ensures Matches(Run(Start, kinds), Segments(kinds))
    decreases |kinds|
  {
    if kinds != [] {
      var n := |kinds| - 1;
      RunBySegments(kinds[..n]);
      if kinds[n] == Separator {
        SeparatorMatches(Run(Start, kinds[..n]), Segments(kinds[..n]));
      } else {
        OtherLineMatches(Run(Start, kinds[..n]), Segments(kinds[..n]), kinds[n]);
      }
    }
  }

  lemma {:induction false} LastValueFound(block: seq<LineKind>, i: nat)
    requires i < |block| && block[i].Entry?
    ensures LastValue(block, block[i].key).Some?
    decreases |block|
  {
    if i < |block| - 1 {
      var kind := block[|block| - 1];
      if !(kind.Entry? && kind.key == block[i].key) {
        assert block[..|block| - 1][i] == block[i];
        LastValueFound(block[..|block| - 1], i);
      }
    }
  }

  lemma {:induction false} LastValueHasEntry(block: seq<LineKind>, key: string)
    requires LastValue(block, key).Some?
    ensures HasEntry(block)
    decreases |block|
  {
    var n := |block| - 1;
    var kind := block[n];
    if !(kind.Entry? && kind.key == key) {
      LastValueHasEntry(block[..n], key);
      var i :| 0 <= i < n && block[..n][i].Entry?;
      assert block[..n][i] == block[i];
    }
  }

  /** A set built from a block is empty exactly when the block has no entry line. */
  lemma AgreesEmpty(params: ParamSet, block: seq<LineKind>)
    requires Agrees(params, block)
    ensures params == map[] <==> !HasEntry(block)
  {
    if HasEntry(block) {
      var i :| 0 <= i < |block| && block[i].Entry?;
      LastValueFound(block, i);
      assert block[i].key in params;
    }
    if params != map[] {
      var key :| key in params;
      LastValueHasEntry(block, key);
    }
  }

  /**
   * The reader's output, read block by block: there is one set per `---`-closed
   * block, plus one for the final block when it holds an entry; the i-th set maps
   * each key to the value of its last entry line in the i-th block, and holds no
   * other key.
   */
  lemma ParseBySegments(lines: seq<string>)
    ensures var sets, segs := Parse(lines), Segments(Kinds(lines));
            && |sets| == |segs| - 1 + (if HasEntry(segs[|segs| - 1]) then 1 else 0)
            && forall i :: 0 <= i < |sets| ==> Agrees(sets[i], segs[i])
  {
    var kinds := Kinds(lines);
    RunBySegments(kinds);
    var st, segs := Run(Start, kinds), Segments(kinds);
    AgreesEmpty(st.current, segs[|segs| - 1]);
    var sets := Finish(st);
    assert sets == Parse(lines);
    forall i | 0 <= i < |sets| ensures Agrees(sets[i], segs[i]) {
      if i < |st.sets| {
        assert sets[i] == st.sets[i];
      }
    }
  }

  /**
   * The number of parameter sets is the number of `---` lines, plus one when the
   * lines after the last of them hold an entry.
   */
  lemma ParseCount(lines: seq<string>)
    ensures var segs := Segments(Kinds(lines));
            |Parse(lines)| == SeparatorCount(Kinds(lines)) + (if HasEntry(segs[|segs| - 1]) then 1 else 0)
  {
    ParseBySegments(lines);
    SegmentCount(Kinds(lines));
  }
}
