/**
 The test-plan compiler of src/wrtmmasher/TestPlanParser.py: a suite
 section's `plan` text becomes a finite list of address-resolved
 invocations, replayed `loop` times with one running address offset, and
 the catalog file becomes a map from test id to test type.

 Python's generator is lazy: the records produced before a line fails are
 still handed to the caller, so a compilation is the list of records
 produced plus the error (if any) that stopped it.
 */
module Plan {
  import opened Text

  /** One resolved invocation, `[seq, testId, ifName, duration, address, mask]`. */
  datatype Invocation = Invocation(
    seqNo: int,
    testId: int,
    ifName: string,
    duration: int,
    address: int,
    mask: int)

  /** The two options of a suite section the generator reads. */
  datatype Section = Section(loop: Option<string>, plan: string)

  /** The Python exceptions a plan line can raise. */
  datatype PlanError = IndexError | ValueError | AttributeError

  datatype Compiled = Compiled(records: seq<Invocation>, error: Option<PlanError>)

  /** One line's work: the record for sequence number `seqNo` and the offset
      after the line, given the offset before it. */
  type LineStep = (string, int, int) -> Result<(Invocation, int), PlanError>

  // ---------------------------------------------------------------------
  // Section options
  // ---------------------------------------------------------------------

  /** The `loop` option, read with `getint`; a section without it runs once. */
  function LoopCount(s: Section): (r: Result<int, PlanError>)
    ensures s.loop.None? ==> r == Success(1)
    ensures s.loop.Some? ==> (r.Success? <==> ParseInt(s.loop.value).Some?)
  {
    match s.loop
    case None => Success(1)
    case Some(text) =>
      match ParseInt(text)
      case None => Failure(ValueError)
      case Some(n) => Success(n)
  }

  /** The plan lines: the `plan` value split on newlines, first piece dropped. */
  function PlanLines(s: Section): (lines: seq<string>)
    ensures |lines| == |Split(s.plan, '\n')| - 1
    ensures forall i :: 0 <= i < |lines| ==> '\n' !in lines[i]
  {
    Split(s.plan, '\n')[1..]
  }

  // ---------------------------------------------------------------------
  // One line, as the doc-comment of the parser describes it
  // ---------------------------------------------------------------------

  /** The address field: a leading sign makes it a delta added to the running
      offset, anything else an absolute value replacing it. */
  function ResolveAddress(offset: int, field: string): (r: Result<int, PlanError>)
    requires |field| > 0
    ensures r.Success? <==> ParseInt(field).Some?
    ensures r.Success? ==> r.value == (if IsSign(field[0]) then offset else 0) + ParseInt(field).value
    ensures r.Failure? ==> r.error == ValueError
  {
    match ParseInt(field)
    case None => Failure(ValueError)
    case Some(v) => Success(if IsSign(field[0]) then offset + v else v)
  }

  /** `parseTestLine` applied to the split line whose address is already resolved. */
  function ParseTestLine(seqNo: int, tokens: seq<string>, address: int): (r: Result<Invocation, PlanError>)
    requires |tokens| >= 4
    ensures r.Success? <==>
      |tokens| >= 5 && ParseInt(tokens[0]).Some? && ParseInt(tokens[2]).Some? && ParseInt(tokens[4]).Some?
    ensures r.Success? ==>
      r.value.seqNo == seqNo && r.value.testId == ParseInt(tokens[0]).value && r.value.ifName == tokens[1]
      && r.value.duration == ParseInt(tokens[2]).value && r.value.address == address
      && r.value.mask == ParseInt(tokens[4]).value
    // the fields are read left to right: a missing fifth field is only
    // noticed once the first and third have been converted
    ensures r == Failure(IndexError) <==>
      ParseInt(tokens[0]).Some? && ParseInt(tokens[2]).Some? && |tokens| < 5
    ensures r.Failure? ==> r.error != AttributeError
  {
    match ParseInt(tokens[0])
    case None => Failure(ValueError)
    case Some(testId) =>
      match ParseInt(tokens[2])
      case None => Failure(ValueError)
      case Some(duration) =>
        if |tokens| < 5 then Failure(IndexError)
        else
          match ParseInt(tokens[4])
          case None => Failure(ValueError)
          case Some(mask) => Success(Invocation(seqNo, testId, tokens[1], duration, address, mask))
  }

  /** Compiles one line: split on single spaces, resolve the fourth field
      against the running offset, then parse the record. */
  function CompileLine(line: string, seqNo: int, offset: int): (r: Result<(Invocation, int), PlanError>)
    ensures var ts := Split(line, ' ');
      |ts| < 4 || |ts[3]| == 0 ==> r == Failure(IndexError)
    ensures var ts := Split(line, ' ');
      |ts| >= 4 && |ts[3]| > 0 && ParseInt(ts[3]).None? ==> r == Failure(ValueError)
    ensures var ts := Split(line, ' ');
      r.Success? <==> |ts| >= 5 && |ts[3]| > 0 && FieldsRead(ts)
    ensures var ts := Split(line, ' ');
      r.Success? ==>
        r.value.0 == Invocation(seqNo, ParseInt(ts[0]).value, ts[1], ParseInt(ts[2]).value, r.value.1, ParseInt(ts[4]).value)
        && r.value.1 == (if IsSign(ts[3][0]) then offset else 0) + ParseInt(ts[3]).value
    ensures r.Failure? ==> r.error != AttributeError
  {
    CompileTokens(Split(line, ' '), seqNo, offset)
  }

  /** Every numeric field of a five-field line reads as an integer. */
  predicate FieldsRead(ts: seq<string>)
    requires |ts| >= 5
  {
    ParseInt(ts[0]).Some? && ParseInt(ts[2]).Some? && ParseInt(ts[3]).Some? && ParseInt(ts[4]).Some?
  }

  function CompileTokens(ts: seq<string>, seqNo: int, offset: int): (r: Result<(Invocation, int), PlanError>)
    ensures |ts| < 4 || |ts[3]| == 0 ==> r == Failure(IndexError)
    ensures |ts| >= 4 && |ts[3]| > 0 && ParseInt(ts[3]).None? ==> r == Failure(ValueError)
    ensures r.Success? <==> |ts| >= 5 && |ts[3]| > 0 && FieldsRead(ts)
    ensures r.Success? ==>
      r.value.0 == Invocation(seqNo, ParseInt(ts[0]).value, ts[1], ParseInt(ts[2]).value, r.value.1, ParseInt(ts[4]).value)
      && r.value.1 == (if IsSign(ts[3][0]) then offset else 0) + ParseInt(ts[3]).value
    ensures r.Failure? ==> r.error != AttributeError
  {
    if |ts| < 4 || |ts[3]| == 0 then Failure(IndexError)
    else
      match ResolveAddress(offset, ts[3])
      case Failure(e) => Failure(e)
      case Success(address) =>
        match ParseTestLine(seqNo, ts, address)
        case Failure(e) => Failure(e)
        case Success(rec) => Success((rec, address))
  }

  // ---------------------------------------------------------------------
  // One line, as the generator is written
  // ---------------------------------------------------------------------

  /** Lines 60-63: only the first character of the field is converted. */
  function ResolveAddressAsWritten(offset: int, field: string): (r: Result<int, PlanError>)
    requires |field| > 0
    ensures IsSign(field[0]) ==> r == Failure(ValueError)
    ensures r.Success? ==> 0 <= r.value < 10
  {
    ParseOneChar(field[0]);
    match ParseInt([field[0]])
    case None => Failure(ValueError)
    case Some(v) => Success(if IsSign(field[0]) then offset + v else v)
  }

  /** `int(c)` for a single character. */
  lemma ParseOneChar(c: char)
    ensures ParseInt([c]) == if IsDigit(c) then Some(DigitValue(c) as int) else None
  {
    assert [c][0] == c && [c][1..] == [];
    if IsSpace(c) {
      assert ParseInt([c]) == ReadFrom([], Leading);
    } else if IsSign(c) {
      assert ParseInt([c]) == ReadFrom([], AfterSign(c == '-'));
    } else if IsDigit(c) {
      assert ParseInt([c]) == ReadFrom([], InDigits(false, DigitValue(c)));
    }
  }

  /** Lines 59-67: after the address, the list of fields is handed to
      `parseTestLine`, whose `.split` does not exist on a list. */
  function CompileLineAsWritten(line: string, seqNo: int, offset: int): (r: Result<(Invocation, int), PlanError>)
    ensures r.Failure?
  {
    var tokens := Split(line, ' ');
    if |tokens| < 4 || |tokens[3]| == 0 then Failure(IndexError)
    else
      match ResolveAddressAsWritten(offset, tokens[3])
      case Failure(e) => Failure(e)
      case Success(_) => Failure(AttributeError)
  }

  // ---------------------------------------------------------------------
  // The generator
  // ---------------------------------------------------------------------

  datatype Pass = Pass(records: seq<Invocation>, offset: int, error: Option<PlanError>)

  /** One pass over `lines[i..]`; line `i` gets sequence number `i + 1`. */
  function RunPass(step: LineStep, lines: seq<string>, i: nat, offset: int): (p: Pass)
    requires i <= |lines|
    ensures p.error.None? ==> |p.records| == |lines| - i
    ensures p.error.Some? ==> |p.records| < |lines| - i
    decreases |lines| - i
  {
    if i == |lines| then Pass([], offset, None)
    else
      match step(lines[i], i + 1, offset)
      case Failure(e) => Pass([], offset, Some(e))
      case Success((rec, next)) =>
        var rest := RunPass(step, lines, i + 1, next);
        Pass([rec] + rest.records, rest.offset, rest.error)
  }

  /** `loops` passes; the offset carries over from one pass to the next. */
  function RunLoops(step: LineStep, lines: seq<string>, loops: int, offset: int): (c: Compiled)
    ensures loops <= 0 ==> c == Compiled([], None)
    decreases loops
  {
    if loops <= 0 then Compiled([], None)
    else
      var p := RunPass(step, lines, 0, offset);
      if p.error.Some? then Compiled(p.records, p.error)
      else
        var rest := RunLoops(step, lines, loops - 1, p.offset);
        Compiled(p.records + rest.records, rest.error)
  }

  function Generate(step: LineStep, s: Section): Compiled {
    match LoopCount(s)
    case Failure(e) => Compiled([], Some(e))
    case Success(loops) => RunLoops(step, PlanLines(s), loops, 0)
  }

  /** `getTestGenerator` with the address rule of the class doc-comment. */
  function CompilePlan(s: Section): (c: Compiled)
    ensures LoopCount(s).Failure? ==> c == Compiled([], Some(LoopCount(s).error))
  {
    Generate(CompileLine, s)
  }

  /** A generator that runs to the end yields `loops` times one record per
      line; one that stops early has yielded fewer. */
  lemma {:induction false} RecordCount(step: LineStep, lines: seq<string>, loops: nat, offset: int)
    ensures var c := RunLoops(step, lines, loops, offset);
      (c.error.None? ==> |c.records| == loops * |lines|) &&
      (c.error.Some? ==> |c.records| < loops * |lines|)
    decreases loops
  {
    if loops > 0 {
      var p := RunPass(step, lines, 0, offset);
      if p.error.None? {
        RecordCount(step, lines, loops - 1, p.offset);
        assert loops * |lines| == |lines| + (loops - 1) * |lines|;
      } else {
        assert |lines| <= loops * |lines|;
      }
    }
  }

  /** `getTestGenerator` as written. */
  function CompilePlanAsWritten(s: Section): Compiled {
    Generate(CompileLineAsWritten, s)
  }

  /** As written, the generator never yields a record: the first line it
      reaches raises, and a plan it completes is one with no lines or loops. */
  lemma {:induction false} AsWrittenYieldsNothing(s: Section)
    ensures CompilePlanAsWritten(s).records == []
    ensures CompilePlanAsWritten(s).error.None? ==>
      LoopCount(s).Success? && (LoopCount(s).value <= 0 || |PlanLines(s)| == 0)
  {
    match LoopCount(s)
    case Failure(_) =>
    case Success(loops) =>
      AsWrittenLoops(PlanLines(s), loops, 0);
  }

  lemma {:induction false} AsWrittenLoops(lines: seq<string>, loops: int, offset: int)
    ensures RunLoops(CompileLineAsWritten, lines, loops, offset).records == []
    ensures RunLoops(CompileLineAsWritten, lines, loops, offset).error.None? ==>
      loops <= 0 || |lines| == 0
    decreases loops
  {
    if loops > 0 {
      var p := RunPass(CompileLineAsWritten, lines, 0, offset);
      if |lines| > 0 {
        assert CompileLineAsWritten(lines[0], 1, offset).Failure?;
      } else {
        AsWrittenLoops(lines, loops - 1, p.offset);
      }
    }
  }

  /** As written, a delta field always raises `ValueError`, and an absolute
      field keeps only its first digit. */
  lemma AddressFirstCharOnly(offset: int)
    ensures ResolveAddressAsWritten(offset, "+5") == Failure(ValueError)
    ensures ResolveAddressAsWritten(offset, "-5") == Failure(ValueError)
    ensures ResolveAddressAsWritten(offset, "42") == Success(4)
    ensures ResolveAddress(offset, "+5") == Success(offset + 5)
    ensures ResolveAddress(offset, "42") == Success(42)
  {
    ParseOneChar('+');
    ParseOneChar('-');
    ParseOneChar('4');
    SignedDigits("+", "5");
    assert "+" + "5" == "+5";
    SignedDigits("", "42");
    assert "" + "42" == "42";
    assert "42"[..1] == "4";
    assert DigitsValue("42") == 10 * DigitsValue("4") + 2;
  }

  // ---------------------------------------------------------------------
  // The reference: a plan written from entries, flattened and scanned
  // ---------------------------------------------------------------------

  /** An address field: an absolute value, or a signed delta. */
  datatype AddrSpec = Absolute(value: nat) | Delta(delta: int)

  function RenderLines(entries: seq<PlanEntry>): (lines: seq<string>)
    ensures |lines| == |entries|
  {
    seq(|entries|, i requires 0 <= i < |entries| => RenderEntry(entries[i]))
  }

  /** A plan line before resolution. */
  datatype PlanEntry = PlanEntry(testId: int, ifName: string, duration: int, addr: AddrSpec, mask: int)

  /** What an address field does to the running offset. */
  function Apply(spec: AddrSpec, offset: int): int {
    match spec
    case Absolute(v) => v
    case Delta(d) => offset + d
  }

  function RenderAddr(spec: AddrSpec): string {
    match spec
    case Absolute(v) => NatDigits(v)
    case Delta(d) => if d < 0 then "-" + NatDigits(-d) else "+" + NatDigits(d)
  }

  predicate WellFormedName(name: string) {
    ' ' !in name && '\n' !in name
  }

  function RenderFields(e: PlanEntry): seq<string> {
    [IntToString(e.testId), e.ifName, IntToString(e.duration), RenderAddr(e.addr), IntToString(e.mask)]
  }

  /** The plan line that describes an entry. */
  function RenderEntry(e: PlanEntry): string {
    Join(RenderFields(e), ' ')
  }

  /** A `plan` value: one line per entry after the option's first line. */
  function RenderPlan(entries: seq<PlanEntry>): string {
    "\n" + Join(RenderLines(entries), '\n')
  }

  /** `xs` repeated `loops` times. */
  function Replay<T>(xs: seq<T>, loops: nat): seq<T> {
    if loops == 0 then [] else xs + Replay(xs, loops - 1)
  }

  lemma {:induction false} ReplayLength<T>(xs: seq<T>, loops: nat)
    ensures |Replay(xs, loops)| == loops * |xs|
  {
    if loops > 0 {
      ReplayLength(xs, loops - 1);
      assert loops * |xs| == |xs| + (loops - 1) * |xs|;
    }
  }

  /** The address produced at each step of a scan of address fields. */
  function Resolve(specs: seq<AddrSpec>, offset: int): (addrs: seq<int>)
    ensures |addrs| == |specs|
    decreases |specs|
  {
    if |specs| == 0 then [] else
      var next := Apply(specs[0], offset);
      [next] + Resolve(specs[1..], next)
  }

  /** The offset left after a scan. */
  function Final(specs: seq<AddrSpec>, offset: int): int
    decreases |specs|
  {
    if |specs| == 0 then offset else Final(specs[1..], Apply(specs[0], offset))
  }

  function Specs(entries: seq<PlanEntry>): seq<AddrSpec> {
    seq(|entries|, i requires 0 <= i < |entries| => entries[i].addr)
  }

  /** What a plan should compile to: the entries replayed `loops` times; the
      k-th record takes the sequence number of its line's position within
      the plan, that line's fields, and the k-th address of one scan over the
      address fields of the whole replay. */
  function Expected(entries: seq<PlanEntry>, loops: nat, offset: int): (r: seq<Invocation>)
    requires |entries| > 0
    ensures |r| == |Replay(entries, loops)|
  {
    var n := |entries|;
    var flat := Replay(entries, loops);
    var addrs := Resolve(Specs(flat), offset);
    seq(|flat|, k requires 0 <= k < |flat| =>
      Invocation(k % n + 1, flat[k].testId, flat[k].ifName, flat[k].duration, addrs[k], flat[k].mask))
  }

  /** A rendered line compiles to its entry, with the address resolved
      against the running offset. */
  lemma CompileRenderedLine(e: PlanEntry, seqNo: int, offset: int)
    requires WellFormedName(e.ifName)
    ensures CompileLine(RenderEntry(e), seqNo, offset) ==
      Success((Invocation(seqNo, e.testId, e.ifName, e.duration, Apply(e.addr, offset), e.mask),
               Apply(e.addr, offset)))
  {
    RenderedTokens(e);
    CompileFields(e, seqNo, offset);
  }

  lemma CompileFields(e: PlanEntry, seqNo: int, offset: int)
    ensures CompileTokens(RenderFields(e), seqNo, offset) ==
      Success((Invocation(seqNo, e.testId, e.ifName, e.duration, Apply(e.addr, offset), e.mask),
               Apply(e.addr, offset)))
  {
    NoSpaceInAddr(e.addr);
    AddressRule(offset, e.addr);
    ParsedFields(e, seqNo, Apply(e.addr, offset));
  }

  lemma RenderedTokens(e: PlanEntry)
    requires WellFormedName(e.ifName)
    ensures Split(RenderEntry(e), ' ') == RenderFields(e)
  {
    var fs := RenderFields(e);
    NoSpaceInNumber(e.testId);
    NoSpaceInNumber(e.duration);
    NoSpaceInAddr(e.addr);
    NoSpaceInNumber(e.mask);
    assert forall i :: 0 <= i < |fs| ==> ' ' !in fs[i];
    SplitJoin(fs, ' ');
  }

  lemma ParsedFields(e: PlanEntry, seqNo: int, address: int)
    ensures ParseTestLine(seqNo, RenderFields(e), address) ==
      Success(Invocation(seqNo, e.testId, e.ifName, e.duration, address, e.mask))
  {
    ParseIntToString(e.testId);
    ParseIntToString(e.duration);
    ParseIntToString(e.mask);
  }

  lemma NoSpaceInNumber(n: int)
    ensures ' ' !in IntToString(n) && '\n' !in IntToString(n)
    ensures |IntToString(n)| > 0
  {
    var s := IntToString(n);
    if n < 0 {
      assert s[1..] == NatDigits(-n);
      assert forall i :: 1 <= i < |s| ==> IsDigit(s[i]);
    }
  }

  lemma NoSpaceInAddr(a: AddrSpec)
    ensures ' ' !in RenderAddr(a) && '\n' !in RenderAddr(a)
    ensures |RenderAddr(a)| > 0
    ensures IsSign(RenderAddr(a)[0]) <==> a.Delta?
  {
    var s := RenderAddr(a);
    match a
    case Absolute(v) =>
      assert IsDigit(s[0]);
    case Delta(d) =>
      var ds := if d < 0 then NatDigits(-d) else NatDigits(d);
      assert s[1..] == ds;
      assert forall i :: 1 <= i < |s| ==> IsDigit(s[i]);
  }

  lemma {:induction false} ResolveAppend(a: seq<AddrSpec>, b: seq<AddrSpec>, offset: int)
    ensures Resolve(a + b, offset) == Resolve(a, offset) + Resolve(b, Final(a, offset))
    decreases |a|
  {
    if |a| > 0 {
      assert (a + b)[1..] == a[1..] + b;
      ResolveAppend(a[1..], b, Apply(a[0], offset));
    } else {
      assert a + b == b;
    }
  }

  /** The records a pass over `entries[i..]` should yield, given the
      addresses of its scan. */
  function PassRecords(entries: seq<PlanEntry>, i: nat, addrs: seq<int>): (rs: seq<Invocation>)
    requires i <= |entries| && |addrs| == |entries| - i
    ensures |rs| == |entries| - i
  {
    seq(|entries| - i, j requires 0 <= j < |entries| - i =>
      Invocation(i + j + 1, entries[i + j].testId, entries[i + j].ifName,
                 entries[i + j].duration, addrs[j], entries[i + j].mask))
  }

  lemma PassRecordsCons(entries: seq<PlanEntry>, i: nat, a: int, addrs: seq<int>)
    requires i < |entries| && |addrs| == |entries| - i - 1
    ensures PassRecords(entries, i, [a] + addrs) ==
      [Invocation(i + 1, entries[i].testId, entries[i].ifName, entries[i].duration, a, entries[i].mask)]
      + PassRecords(entries, i + 1, addrs)
  {
  }

  /** The step reads every line as its entry: the entry's fields, the
      sequence number it is given, and the address rule applied to the
      offset. */
  ghost predicate ReadsAsEntries(step: LineStep, entries: seq<PlanEntry>, lines: seq<string>) {
    |lines| == |entries|
    && forall i, seqNo, offset | 0 <= i < |lines| ::
         step(lines[i], seqNo, offset) == Success((EntryRecord(entries[i], seqNo, offset), Apply(entries[i].addr, offset)))
  }

  function EntryRecord(e: PlanEntry, seqNo: int, offset: int): Invocation {
    Invocation(seqNo, e.testId, e.ifName, e.duration, Apply(e.addr, offset), e.mask)
  }

  /** A pass over lines the step reads as entries, from line `i`, yields the
      remaining entries with their scanned addresses. */
  lemma {:induction false} PassOverEntries(step: LineStep, entries: seq<PlanEntry>, lines: seq<string>, i: nat, offset: int)
    requires ReadsAsEntries(step, entries, lines) && i <= |entries|
    ensures RunPass(step, lines, i, offset) ==
      Pass(PassRecords(entries, i, Resolve(Specs(entries)[i..], offset)), Final(Specs(entries)[i..], offset), None)
    decreases |entries| - i
  {
    var specs := Specs(entries);
    if i < |entries| {
      var e := entries[i];
      var next := Apply(e.addr, offset);
      assert step(lines[i], i + 1, offset) == Success((EntryRecord(e, i + 1, offset), next));
      PassOverEntries(step, entries, lines, i + 1, next);
      var rest := RunPass(step, lines, i + 1, next);
      assert RunPass(step, lines, i, offset) == Pass([EntryRecord(e, i + 1, offset)] + rest.records, rest.offset, rest.error);
      assert specs[i..][0] == e.addr;
      assert specs[i..][1..] == specs[i + 1..];
      assert Resolve(specs[i..], offset) == [next] + Resolve(specs[i + 1..], next);
      PassRecordsCons(entries, i, next, Resolve(specs[i + 1..], next));
    } else {
      assert specs[i..] == [];
    }
  }

  lemma MulBound(d: int, n: int)
    requires n > 0
    ensures d >= 1 ==> d * n >= n
    ensures d <= -1 ==> d * n <= -n
    ensures d == 0 ==> d * n == 0
  {
  }

  /** Euclidean remainder is determined by any quotient/remainder split. */
  lemma ModUnique(k: int, n: int, q: int, r: int)
    requires n > 0 && 0 <= r < n && k == q * n + r
    ensures k % n == r
  {
    var d := q - k / n;
    assert k == (k / n) * n + k % n;
    assert d * n == k % n - r;
    MulBound(d, n);
  }

  lemma ModStep(k: int, n: int)
    requires n > 0 && k >= n
    ensures (k - n) % n == k % n
  {
    ModUnique(k - n, n, k / n - 1, k % n);
  }

  /** The expected records of `loops` passes are one pass followed by the
      expected records of the remaining passes from the offset it leaves. */
  lemma ExpectedCons(entries: seq<PlanEntry>, loops: nat, offset: int)
    requires |entries| > 0 && loops > 0
    ensures Expected(entries, loops, offset) ==
      PassRecords(entries, 0, Resolve(Specs(entries), offset))
      + Expected(entries, loops - 1, Final(Specs(entries), offset))
  {
    var n := |entries|;
    var later := Replay(entries, loops - 1);
    assert Replay(entries, loops) == entries + later;
    assert Specs(entries + later) == Specs(entries) + Specs(later);
    ResolveAppend(Specs(entries), Specs(later), offset);
    var whole := Expected(entries, loops, offset);
    var first := PassRecords(entries, 0, Resolve(Specs(entries), offset));
    var rest := Expected(entries, loops - 1, Final(Specs(entries), offset));
    assert |first + rest| == |whole|;
    forall k | 0 <= k < |whole| ensures (first + rest)[k] == whole[k] {
      if k >= n {
        ModStep(k, n);
      } else {
        ModUnique(k, n, 0, k);
      }
    }
  }

  /** A loop whose first pass succeeds yields that pass's records followed
      by the remaining loops' records, from the offset the pass leaves. */
  lemma LoopsCons(step: LineStep, lines: seq<string>, loops: int, offset: int)
    requires loops > 0 && RunPass(step, lines, 0, offset).error.None?
    ensures var p := RunPass(step, lines, 0, offset);
      var rest := RunLoops(step, lines, loops - 1, p.offset);
      RunLoops(step, lines, loops, offset) == Compiled(p.records + rest.records, rest.error)
  {
  }

  /** Over lines the step reads as entries, the loops yield the reference
      sequence. */
  lemma {:induction false} LoopsOverEntries(step: LineStep, entries: seq<PlanEntry>, lines: seq<string>, loops: nat, offset: int)
    requires |entries| > 0 && ReadsAsEntries(step, entries, lines)
    ensures RunLoops(step, lines, loops, offset) == Compiled(Expected(entries, loops, offset), None)
    decreases loops
  {
    if loops > 0 {
      var specs := Specs(entries);
      var first := PassRecords(entries, 0, Resolve(specs, offset));
      var next := Final(specs, offset);
      assert RunPass(step, lines, 0, offset) == Pass(first, next, None) by {
        assert specs[0..] == specs;
        PassOverEntries(step, entries, lines, 0, offset);
      }
      LoopsCons(step, lines, loops, offset);
      LoopsOverEntries(step, entries, lines, loops - 1, next);
      ExpectedCons(entries, loops, offset);
    }
  }

  /** The corrected line compiler reads every rendered line as its entry. */
  lemma RenderedReadsAsEntries(entries: seq<PlanEntry>)
    requires forall j :: 0 <= j < |entries| ==> WellFormedName(entries[j].ifName)
    ensures ReadsAsEntries(CompileLine, entries, RenderLines(entries))
  {
    var lines := RenderLines(entries);
    forall i, seqNo, offset | 0 <= i < |lines|
      ensures CompileLine(lines[i], seqNo, offset) ==
        Success((EntryRecord(entries[i], seqNo, offset), Apply(entries[i].addr, offset)))
    {
      CompileRenderedLine(entries[i], seqNo, offset);
    }
  }

  /** A plan written from entries compiles, without error, to the replay of
      its entries: `loops` times the entries in order, sequence numbers
      restarting at 1 on each pass, addresses from one running offset that
      starts at 0 and is never reset between passes. */
  lemma CompileRenderedPlan(entries: seq<PlanEntry>, loops: nat)
    requires |entries| > 0
    requires forall j :: 0 <= j < |entries| ==> WellFormedName(entries[j].ifName)
    ensures CompilePlan(Section(Some(NatDigits(loops)), RenderPlan(entries))) ==
      Compiled(Expected(entries, loops, 0), None)
  {
    var s := Section(Some(NatDigits(loops)), RenderPlan(entries));
    var lines := RenderLines(entries);
    assert PlanLines(s) == lines by {
      RenderedLinesUnbroken(entries);
      SplitJoin(lines, '\n');
      SplitAtFirst("", Join(lines, '\n'), '\n');
      assert "" + ['\n'] + Join(lines, '\n') == RenderPlan(entries);
    }
    assert LoopCount(s) == Success(loops as int) by {
      ParseIntToString(loops);
    }
    assert RunLoops(CompileLine, lines, loops, 0) == Compiled(Expected(entries, loops, 0), None) by {
      RenderedReadsAsEntries(entries);
      LoopsOverEntries(CompileLine, entries, lines, loops, 0);
    }
  }

  /** No rendered plan line holds a newline. */
  lemma RenderedLinesUnbroken(entries: seq<PlanEntry>)
    requires forall j :: 0 <= j < |entries| ==> WellFormedName(entries[j].ifName)
    ensures forall i | 0 <= i < |RenderLines(entries)| :: '\n' !in RenderLines(entries)[i]
  {
    var lines := RenderLines(entries);
    forall i | 0 <= i < |lines| ensures '\n' !in lines[i] {
      var fs := RenderFields(entries[i]);
      NoSpaceInNumber(entries[i].testId);
      NoSpaceInNumber(entries[i].duration);
      NoSpaceInAddr(entries[i].addr);
      NoSpaceInNumber(entries[i].mask);
      NoNewlineInJoin(fs);
    }
  }

  lemma {:induction false} NoNewlineInJoin(fs: seq<string>)
    requires forall i :: 0 <= i < |fs| ==> '\n' !in fs[i]
    ensures '\n' !in Join(fs, ' ')
    decreases |fs|
  {
    if |fs| > 1 {
      NoNewlineInJoin(fs[1..]);
    }
  }

  /** An absolute address replaces the offset and a delta adds to it. */
  lemma AddressRule(offset: int, a: AddrSpec)
    ensures ResolveAddress(offset, RenderAddr(a)) ==
      Success(if a.Absolute? then a.value else offset + a.delta)
  {
    NoSpaceInAddr(a);
    AddrReads(a);
    ResolveRead(offset, RenderAddr(a), if a.Absolute? then a.value else a.delta);
  }

  lemma ResolveRead(offset: int, field: string, v: int)
    requires |field| > 0 && ParseInt(field) == Some(v)
    ensures ResolveAddress(offset, field) == Success((if IsSign(field[0]) then offset else 0) + v)
  {
  }

  /** A rendered address field reads back as its value or its delta. */
  lemma AddrReads(a: AddrSpec)
    ensures ParseInt(RenderAddr(a)) == Some(if a.Absolute? then a.value else a.delta)
  {
    match a
    case Absolute(v) =>
      ParseIntToString(v);
    case Delta(d) =>
      if d < 0 { ParseSigned('-', -d); } else { ParseSigned('+', d); }
  }

  // ---------------------------------------------------------------------
  // The test-type catalog
  // ---------------------------------------------------------------------

  datatype TestType = TestType(continuous: int, description: string)

  datatype Catalog = Catalog(types: map<int, TestType>, error: Option<PlanError>)

  /** One catalog line: `id continuous description...`, where the
      description is the remaining fields joined by single spaces. */
  function ParseTestType(line: string): (r: Result<(int, TestType), PlanError>)
    ensures var fs := Split(line, ' ');
      r.Success? <==> |fs| >= 2 && ParseInt(fs[0]).Some? && ParseInt(fs[1]).Some?
    ensures var fs := Split(line, ' ');
      r.Success? ==>
        r.value.0 == ParseInt(fs[0]).value && r.value.1.continuous == ParseInt(fs[1]).value
        && r.value.1.description == Join(fs[2..], ' ')
    // the description is all the text after the second space, or empty
    // when the line holds only one space
    ensures var fs := Split(line, ' ');
      r.Success? ==>
        line == fs[0] + " " + fs[1] + (if |fs| == 2 then "" else " " + r.value.1.description)
    // the id is converted before the second field is looked up
    ensures var fs := Split(line, ' ');
      r == Failure(IndexError) <==> ParseInt(fs[0]).Some? && |fs| == 1
    ensures r.Failure? && r.error != IndexError ==> r.error == ValueError
  {
    var fields := Split(line, ' ');
    match ParseInt(fields[0])
    case None => Failure(ValueError)
    case Some(id) =>
      if |fields| < 2 then Failure(IndexError)
      else
        match ParseInt(fields[1])
        case None => Failure(ValueError)
        case Some(continuous) =>
          JoinFirstTwo(fields, ' ');
          Success((id, TestType(continuous, Join(fields[2..], ' '))))
  }

  /** `loadTestTypes` over the file's lines: each line overwrites the entry
      of its id; the first bad line stops the load with the entries so far. */
  function LoadTestTypes(types: map<int, TestType>, lines: seq<string>): (c: Catalog)
    ensures types.Keys <= c.types.Keys
    decreases |lines|
  {
    if |lines| == 0 then Catalog(types, None)
    else
      match ParseTestType(lines[0])
      case Failure(e) => Catalog(types, Some(e))
      case Success((id, t)) => LoadTestTypes(types[id := t], lines[1..])
  }

  /** A blank line has no id to read, and a line holding only an id has no
      second field: the catalog's own newline does not count as either. */
  lemma ShortTypeLines()
    ensures ParseTestType("\n") == Failure(ValueError)
    ensures ParseTestType("5\n") == Failure(IndexError)
  {
    assert Split("\n", ' ') == ["\n"];
    ParseIntBlank("\n");
    assert Split("5\n", ' ') == ["5\n"];
    ParseIntPadded("", "5", "\n");
    assert "" + "5" + "\n" == "5\n";
    SignedDigits("", "5");
    assert "" + "5" == "5";
  }

  /** The first line that does not parse stops the load: the catalog holds
      the known types overlaid with the lines before it, and the error. */
  lemma {:induction false} LoadStopsAt(types: map<int, TestType>, lines: seq<string>, parsed: seq<(int, TestType)>, e: PlanError)
    requires |parsed| < |lines|
    requires forall k :: 0 <= k < |parsed| ==> ParseTestType(lines[k]) == Success(parsed[k])
    requires ParseTestType(lines[|parsed|]) == Failure(e)
    ensures LoadTestTypes(types, lines) == Catalog(Overlay(types, parsed), Some(e))
    decreases |parsed|
  {
    if |parsed| > 0 {
      assert ParseTestType(lines[0]) == Success(parsed[0]);
      assert forall k :: 0 <= k < |lines[1..]| ==> lines[1..][k] == lines[k + 1];
      LoadStopsAt(types[parsed[0].0 := parsed[0].1], lines[1..], parsed[1..], e);
    }
  }

  /** A line written as `id continuous description` reads back as those
      three values, whatever spaces the description holds. */
  lemma ParseRenderedTestType(id: int, continuous: int, description: string)
    ensures ParseTestType(IntToString(id) + " " + IntToString(continuous) + " " + description) ==
      Success((id, TestType(continuous, description)))
  {
    var a := IntToString(id);
    var b := IntToString(continuous);
    NoSpaceInNumber(id);
    NoSpaceInNumber(continuous);
    SplitAtFirst(b, description, ' ');
    SplitAtFirst(a, b + " " + description, ' ');
    assert a + " " + b + " " + description == a + [' '] + (b + [' '] + description);
    ParseIntToString(id);
    ParseIntToString(continuous);
    var fields := Split(a + " " + b + " " + description, ' ');
    assert fields[2..] == Split(description, ' ');
  }

  /** The catalog a sequence of parsed lines describes: each entry
      overwrites the one before it with the same id. */
  function Overlay(types: map<int, TestType>, parsed: seq<(int, TestType)>): map<int, TestType>
    decreases |parsed|
  {
    if |parsed| == 0 then types
    else Overlay(types[parsed[0].0 := parsed[0].1], parsed[1..])
  }

  /** A load whose every line parses meets no error and builds the overlay of
      the parsed lines. */
  lemma {:induction false} LoadParsed(types: map<int, TestType>, lines: seq<string>, parsed: seq<(int, TestType)>)
    requires |parsed| == |lines|
    requires forall k :: 0 <= k < |lines| ==> ParseTestType(lines[k]) == Success(parsed[k])
    ensures LoadTestTypes(types, lines) == Catalog(Overlay(types, parsed), None)
    decreases |lines|
  {
    if |lines| > 0 {
      assert ParseTestType(lines[0]) == Success(parsed[0]);
      assert forall k :: 0 <= k < |lines[1..]| ==> lines[1..][k] == lines[k + 1];
      LoadParsed(types[parsed[0].0 := parsed[0].1], lines[1..], parsed[1..]);
    }
  }

  /** An id is in the overlay exactly when it was there before or some
      parsed line carries it. */
  lemma {:induction false} OverlayKeys(types: map<int, TestType>, parsed: seq<(int, TestType)>, id: int)
    ensures id in Overlay(types, parsed) <==>
      (id in types || exists k :: 0 <= k < |parsed| && parsed[k].0 == id)
    decreases |parsed|
  {
    if |parsed| > 0 {
      OverlayKeys(types[parsed[0].0 := parsed[0].1], parsed[1..], id);
      if exists k :: 0 <= k < |parsed[1..]| && parsed[1..][k].0 == id {
        var k :| 0 <= k < |parsed[1..]| && parsed[1..][k].0 == id;
        assert parsed[k + 1].0 == id;
      }
      if exists k :: 0 <= k < |parsed| && parsed[k].0 == id {
        var k :| 0 <= k < |parsed| && parsed[k].0 == id;
        if k > 0 {
          assert parsed[1..][k - 1].0 == id;
        }
      }
    }
  }

  /** The entry of the last line carrying an id is the one that stays. */
  lemma {:induction false} OverlayLastWins(types: map<int, TestType>, parsed: seq<(int, TestType)>, k: nat)
    requires k < |parsed|
    requires forall j :: k < j < |parsed| ==> parsed[j].0 != parsed[k].0
    ensures parsed[k].0 in Overlay(types, parsed)
    ensures Overlay(types, parsed)[parsed[k].0] == parsed[k].1
    decreases |parsed|
  {
    if k > 0 {
      assert parsed[1..][k - 1] == parsed[k];
      forall j | k - 1 < j < |parsed[1..]| ensures parsed[1..][j].0 != parsed[1..][k - 1].0 {
        assert parsed[1..][j] == parsed[j + 1];
      }
      OverlayLastWins(types[parsed[0].0 := parsed[0].1], parsed[1..], k - 1);
    } else {
      OverlayUntouched(types[parsed[0].0 := parsed[0].1], parsed[1..], parsed[0].0);
    }
  }

  /** An id no parsed line carries keeps its entry. */
  lemma {:induction false} OverlayUntouched(types: map<int, TestType>, parsed: seq<(int, TestType)>, id: int)
    requires id in types
    requires forall j :: 0 <= j < |parsed| ==> parsed[j].0 != id
    ensures id in Overlay(types, parsed) && Overlay(types, parsed)[id] == types[id]
    decreases |parsed|
  {
    if |parsed| > 0 {
      assert parsed[0].0 != id;
      forall j | 0 <= j < |parsed[1..]| ensures parsed[1..][j].0 != id {
        assert parsed[1..][j] == parsed[j + 1];
      }
      OverlayUntouched(types[parsed[0].0 := parsed[0].1], parsed[1..], id);
    }
  }
}
