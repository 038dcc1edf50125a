/** The pure parts of the compliance-test runner (run_compliance_tests.py):
    the hex image it gives the simulator, the word offset of the `tohost`
    symbol read from `nm`, the Verilog-safe test name and the reading of a
    simulation's output.  The tool runs (`objcopy`, `nm`, `iverilog`, `vvp`)
    are inputs: what they produce, or that they failed. */
module Compliance {
  import opened Wrappers
  import opened Bytes
  import opened Numerals
  import opened Text
  import opened HexImage

  // ---------------------------------------------------------------------
  // convert_elf_to_hex
  // ---------------------------------------------------------------------

  /** `convert_elf_to_hex`, given the bytes `objcopy -O binary` produced, or
      `None` when `objcopy` or a file operation failed: the same
      word-per-line image as sim/bin2hex.py, or `False` and nothing. */
  method ConvertElfToHex(binary: Option<seq<byte>>) returns (ok: bool, text: string)
    ensures ok <==> binary.Some?
    ensures ok ==> text == HexFile(binary.value)
    ensures ok ==> |text| == 9 * ((|binary.value| + 3) / 4)
    ensures !ok ==> text == []
  {
    if binary.None? {
      return false, [];
    }
    var count;
    text, count := BinToHex(binary.value);
    ok := true;
  }

  // ---------------------------------------------------------------------
  // get_test_info
  // ---------------------------------------------------------------------

  /** Where the test programs are linked. */
  const TOHOST_BASE: int := 0x8000_0000

  /** The word offset used when `nm` fails or names no `tohost`. */
  const DEFAULT_TOHOST_WORD: int := 0x400

  /** A line that mentions `tohost` but not `write_tohost`. */
  predicate IsTohostLine(line: string)
  {
    Contains(line, "tohost") && !Contains(line, "write_tohost")
  }

  /** A line the search stops at: a `tohost` line with a first field. */
  predicate Picked(line: string)
  {
    IsTohostLine(line) && FirstField(line).Some?
  }

  /** The offset read from a picked line: its first field as a hexadecimal
      address, less the base, floor-divided by four; the default when the
      field is no hexadecimal number (the exception ends the whole search). */
  function LineWord(line: string): (r: int)
    requires Picked(line)
    ensures ParseInt(FirstField(line).value, 16).None? ==> r == DEFAULT_TOHOST_WORD
    ensures ParseInt(FirstField(line).value, 16).Some? ==>
      var a := ParseInt(FirstField(line).value, 16).value;
      4 * r <= a - TOHOST_BASE < 4 * r + 4
  {
    match ParseInt(FirstField(line).value, 16)
    case None => DEFAULT_TOHOST_WORD
    case Some(a) => (a - TOHOST_BASE) / 4
  }

  /** Index of the first picked line, or `|lines|` when there is none. */
  function FirstPicked(lines: seq<string>): (k: nat)
    ensures k <= |lines|
    ensures forall i | 0 <= i < k :: !Picked(lines[i])
    ensures k < |lines| ==> Picked(lines[k])
  {
    if |lines| == 0 || Picked(lines[0]) then 0
    else
      var k := FirstPicked(lines[1..]);
      assert forall i | 1 <= i <= k :: lines[i] == lines[1..][i - 1];
      1 + k
  }

  /** The search over the lines of `nm`'s output: the first picked line
      decides; with none the default is used. */
  function ScanTohost(lines: seq<string>): (r: int)
    ensures var k := FirstPicked(lines);
      r == if k == |lines| then DEFAULT_TOHOST_WORD else LineWord(lines[k])
  {
    if |lines| == 0 then DEFAULT_TOHOST_WORD
    else if Picked(lines[0]) then LineWord(lines[0])
    else
      assert lines[1..][FirstPicked(lines[1..])..] == lines[1 + FirstPicked(lines[1..])..];
      ScanTohost(lines[1..])
  }

  /** `get_test_info`'s `tohost_word_offset`, given the lines `nm` printed,
      or `None` when `nm` failed. */
  function TohostWordOffset(nm: Option<seq<string>>): (r: int)
    ensures nm.None? ==> r == DEFAULT_TOHOST_WORD
  {
    match nm
    case None => DEFAULT_TOHOST_WORD
    case Some(lines) => ScanTohost(lines)
  }

  /** The line `nm` prints for a data symbol `tohost` at `addr`. */
  function NmLine(addr: u32): string
  {
    Hex8(addr, false) + " D tohost"
  }

  /** A string does not contain `t` when one of `t`'s characters is absent
      from it. */
  lemma AbsentChar(s: string, t: string, j: nat)
    requires j < |t| && t[j] !in s
    ensures !Contains(s, t)
  {
    ContainsIff(s, t);
    forall i
      ensures !OccursAt(s, t, i)
    {
      if 0 <= i && i + |t| <= |s| {
        assert s[i..i + |t|][j] == s[i + j];
        assert s[i + j] in s;
      }
    }
  }

  /** The `nm` line of `tohost` is picked, and its first field is the
      address's eight digits. */
  lemma NmLinePicked(addr: u32)
    ensures Picked(NmLine(addr))
    ensures FirstField(NmLine(addr)) == Some(Hex8(addr, false))
  {
    var line := NmLine(addr);
    var h := Hex8(addr, false);
    assert line[11..17] == "tohost";
    ContainsIff(line, "tohost");
    assert OccursAt(line, "tohost", 11);
    assert forall i | 0 <= i < 8 :: CaseDigit(h[i], false);
    assert forall i | 0 <= i < |line| :: line[i] != 'w';
    AbsentChar(line, "write_tohost", 0);
    assert StripStart(line) == line by {
      assert !IsSpace(line[0]);
    }
    assert forall i | 0 <= i < 8 :: !IsSpace(line[i]);
    assert IsSpace(line[8]);
    assert FindSpace(line) == 8;
    assert line[..8] == h;
  }

  /** After lines that do not mention `tohost` as the search wants, the
      `tohost` line fixes the offset: the word at that offset from the base
      holds the symbol's address, and an aligned address is met exactly. */
  lemma TohostFound(before: seq<string>, addr: u32, after: seq<string>)
    requires forall i | 0 <= i < |before| :: !IsTohostLine(before[i])
    ensures var r := TohostWordOffset(Some(before + [NmLine(addr)] + after));
      && TOHOST_BASE + 4 * r <= addr < TOHOST_BASE + 4 * r + 4
      && (addr % 4 == 0 ==> TOHOST_BASE + 4 * r == addr)
  {
    var lines := before + [NmLine(addr)] + after;
    NmLinePicked(addr);
    assert lines[|before|] == NmLine(addr);
    assert forall i | 0 <= i < |before| :: lines[i] == before[i];
    FirstPickedIs(lines, |before|);
    NmLineWord(addr);
  }

  /** The first picked line is where the search stops. */
  lemma FirstPickedIs(lines: seq<string>, k: nat)
    requires k < |lines| && Picked(lines[k])
    requires forall i | 0 <= i < k :: !Picked(lines[i])
    ensures FirstPicked(lines) == k
  {
  }

  /** The offset the `nm` line of `tohost` gives. */
  lemma NmLineWord(addr: u32)
    ensures Picked(NmLine(addr))
    ensures var r := LineWord(NmLine(addr));
      && TOHOST_BASE + 4 * r <= addr < TOHOST_BASE + 4 * r + 4
      && (addr % 4 == 0 ==> TOHOST_BASE + 4 * r == addr)
  {
    NmLineRange(addr);
    if addr % 4 == 0 {
      AlignedFloor(addr, LineWord(NmLine(addr)));
    }
  }

  lemma NmLineRange(addr: u32)
    ensures Picked(NmLine(addr))
    ensures var r := LineWord(NmLine(addr));
      4 * r <= addr - TOHOST_BASE < 4 * r + 4
  {
    NmLinePicked(addr);
    ParseHex8(addr);
    assert ParseInt(FirstField(NmLine(addr)).value, 16) == Some(addr as int);
  }

  /** An aligned address is exactly its word's start. */
  lemma AlignedFloor(addr: int, r: int)
    requires 4 * r <= addr - TOHOST_BASE < 4 * r + 4
    requires addr % 4 == 0
    ensures addr - TOHOST_BASE == 4 * r
  {
    var q := addr / 4;
    assert addr == 4 * q;
    assert TOHOST_BASE == 4 * 0x2000_0000;
    assert r <= q - 0x2000_0000 < r + 1;
  }

  /** When no line mentions `tohost` the default is used. */
  lemma TohostDefault(lines: seq<string>)
    requires forall i | 0 <= i < |lines| :: !Contains(lines[i], "tohost")
    ensures TohostWordOffset(Some(lines)) == DEFAULT_TOHOST_WORD
  {
    assert forall i | 0 <= i < |lines| :: !Picked(lines[i]);
  }

  // ---------------------------------------------------------------------
  // Test names
  // ---------------------------------------------------------------------

  /** `test_name.replace('-', '_')`, the name of the testbench module. */
  function VerilogName(name: string): (v: string)
    ensures |v| == |name| && '-' !in v
    ensures forall i | 0 <= i < |name| :: v[i] == (if name[i] == '-' then '_' else name[i])
  {
    ReplaceChar(name, '-', '_')
  }

  /** A Verilog name is its own Verilog name. */
  lemma VerilogNameIdempotent(name: string)
    ensures VerilogName(VerilogName(name)) == VerilogName(name)
  {
    var v := VerilogName(name);
    assert forall i | 0 <= i < |v| :: v[i] != '-' by {
      assert forall i | 0 <= i < |v| :: v[i] in v;
    }
  }

  /** Names that differ only in `-` against `_` share one testbench name. */
  lemma VerilogNameCollision(a: string, b: string)
    requires |a| == |b|
    requires forall i | 0 <= i < |a| :: a[i] == b[i] || (a[i] in "-_" && b[i] in "-_")
    ensures VerilogName(a) == VerilogName(b)
  {
    forall i | 0 <= i < |a|
      ensures VerilogName(a)[i] == VerilogName(b)[i]
    {
      assert a[i] in "-_" ==> a[i] == '-' || a[i] == '_';
      assert b[i] in "-_" ==> b[i] == '-' || b[i] == '_';
    }
  }

  // ---------------------------------------------------------------------
  // run_test
  // ---------------------------------------------------------------------

  /** How the compile-and-simulate step ended: `iverilog` failed, `vvp` ran
      to the end with this standard output, `vvp` overran its ten seconds,
      or some other exception was raised. */
  datatype Run = CompileFailed | Finished(stdout: string) | SimulationTimeout | Crashed

  /** Which branch of `run_test` reports the run. */
  datatype Report = Passed | TestFailed | TestTimeout | UnknownResult | NotCompiled | TimedOut | Errored

  /** The branches in `run_test`'s order: "TEST PASSED" is looked for first,
      then "TEST FAILED", then "TEST TIMEOUT". */
  function ReportOf(run: Run): (r: Report)
    ensures r == Passed <==> run.Finished? && Contains(run.stdout, "TEST PASSED")
    ensures r == TestFailed <==>
      run.Finished? && !Contains(run.stdout, "TEST PASSED") && Contains(run.stdout, "TEST FAILED")
    ensures r == TestTimeout <==>
      && run.Finished? && !Contains(run.stdout, "TEST PASSED") && !Contains(run.stdout, "TEST FAILED")
      && Contains(run.stdout, "TEST TIMEOUT")
    ensures r == UnknownResult <==>
      && run.Finished? && !Contains(run.stdout, "TEST PASSED") && !Contains(run.stdout, "TEST FAILED")
      && !Contains(run.stdout, "TEST TIMEOUT")
    ensures r == NotCompiled <==> run == CompileFailed
    ensures r == TimedOut <==> run == SimulationTimeout
    ensures r == Errored <==> run == Crashed
  {
    match run
    case CompileFailed => NotCompiled
    case SimulationTimeout => TimedOut
    case Crashed => Errored
    case Finished(out) =>
      if Contains(out, "TEST PASSED") then Passed
      else if Contains(out, "TEST FAILED") then TestFailed
      else if Contains(out, "TEST TIMEOUT") then TestTimeout
      else UnknownResult
  }

  /** `run_test`'s result: only a finished run whose output says the test
      passed counts. */
  function RunTest(run: Run): (passed: bool)
    ensures passed <==> run.Finished? && Contains(run.stdout, "TEST PASSED")
  {
    ReportOf(run) == Passed
  }

  /** `t` is found wherever it sits in a string. */
  lemma ContainsInfix(a: string, t: string, b: string)
    ensures Contains(a + t + b, t)
  {
    ContainsIff(a + t + b, t);
    assert OccursAt(a + t + b, t, |a|);
  }

  /** A finished simulation whose output holds "TEST PASSED" passes, even if
      it also reports a failure or a timeout. */
  lemma PassedWins(before: string, after: string)
    ensures RunTest(Finished(before + "TEST PASSED" + after))
  {
    ContainsInfix(before, "TEST PASSED", after);
  }

  /** Output that mentions neither outcome fails the test. */
  lemma SilentRunFails(out: string)
    requires !Contains(out, "TEST")
    ensures !RunTest(Finished(out))
    ensures ReportOf(Finished(out)) == UnknownResult
  {
    NotContainsLonger(out, "TEST", " PASSED");
    NotContainsLonger(out, "TEST", " FAILED");
    NotContainsLonger(out, "TEST", " TIMEOUT");
  }

  /** A string that lacks `t` lacks every string beginning with `t`. */
  lemma NotContainsLonger(s: string, t: string, u: string)
    requires !Contains(s, t)
    ensures !Contains(s, t + u)
  {
    ContainsIff(s, t);
    ContainsIff(s, t + u);
    forall i
      ensures !OccursAt(s, t + u, i)
    {
      if 0 <= i && i + |t + u| <= |s| {
        assert !OccursAt(s, t, i);
        assert s[i..i + |t + u|][..|t|] == s[i..i + |t|];
        assert (t + u)[..|t|] == t;
      }
    }
  }
}
