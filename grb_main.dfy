/**
 * The command line of the user-space test program: number parameters
 * with a C base prefix (`0x` hexadecimal, `0` octal, otherwise decimal),
 * and the option loop that fills the test configuration.  `getopt_long`
 * is not part of the model: the options arrive already split into
 * (letter, argument) pairs, with `'?'` for anything it does not know,
 * together with the number of arguments left after the options.
 */
module GrbMain {
  import opened Base
  import GrbCommon

  /* ---------------------------------------------------------------- */
  /* Number parameters                                                  */

  /** The value of a digit character in bases up to 36, as `strtoul` reads it. */
  function DigitValue(c: char): (v: nat)
  {
    if '0' <= c <= '9' then c as nat - '0' as nat
    else if 'a' <= c <= 'z' then c as nat - 'a' as nat + 10
    else if 'A' <= c <= 'Z' then c as nat - 'A' as nat + 10
    else 36
  }

  predicate IsDigit(c: char, base: nat)
  {
    DigitValue(c) < base
  }

  /** The length of the run of digits of `base` that `s` starts with. */
  function DigitRun(s: string, base: nat): (n: nat)
    ensures n <= |s|
    ensures forall i :: 0 <= i < n ==> IsDigit(s[i], base)
    ensures n < |s| ==> !IsDigit(s[n], base)
  {
    if s == [] || !IsDigit(s[0], base) then 0 else 1 + DigitRun(s[1..], base)
  }

  /** The number a string of digits denotes, most significant first. */
  function Value(d: string, base: nat): nat
  {
    if d == [] then 0 else Value(d[..|d| - 1], base) * base + DigitValue(d[|d| - 1])
  }

  /** `ULONG_MAX` when the value does not fit, as `strtoul` reports overflow. */
  function Saturate(v: nat): (r: u64)
    ensures v < U64 ==> r == v
    ensures v >= U64 ==> r == U64 - 1
  {
    if v < U64 then v else U64 - 1
  }

  /**
   * `strtoul(s, &end, base)` on a string without leading blanks or sign:
   * the value of the longest run of digits and where the run ends (the
   * start when there is no digit at all).
   */
  function StrToUL(s: string, base: nat): (r: (u64, nat))
    ensures r.1 <= |s|
  {
    var n := DigitRun(s, base);
    (Saturate(Value(s[..n], base)), n)
  }

  /**
   * What `get_param_base_and_start` decides for a parameter: the base and
   * how many characters of prefix it skips.
   */
  function PrefixOf(s: string): (r: (nat, nat))
  {
    if |s| >= 2 && s[0] == '0' then
      if s[1] == 'x' || s[1] == 'X' then (16, 2) else (8, 1)
    else (10, 0)
  }

  /**
   * `get_param_base_and_start`: advance the cursor `str` over a `0x`,
   * `0X` or `0` prefix, but not over a `0` that is the whole string.
   */
  method GetParamBaseAndStart(s: string, str: nat) returns (base: nat, next: nat)
    requires str <= |s|
    ensures (base, next - str) == PrefixOf(s[str..]) && str <= next <= |s|
  {
    base, next := 10, str;
    if next < |s| && s[next] == '0' && next + 1 < |s| {
      next := next + 1;
      if s[next] == 'x' || s[next] == 'X' {
        next := next + 1;
        base := 16;
      } else {
        base := 8;
      }
    }
  }

  /** The value a parameter stores and whether it was clean (`*endptr` is the terminator). */
  datatype Parsed<T> = Parsed(value: T, clean: bool)

  /** What `get_u64_param` stores through `dest`, and whether it returns rather than exits. */
  function U64Param(s: string): Parsed<u64>
  {
    var (base, skip) := PrefixOf(s);
    var (v, end) := StrToUL(s[skip..], base);
    Parsed(v, skip + end == |s|)
  }

  /** What `get_uint_param` stores: the `unsigned long` result truncated to `unsigned int`. */
  function UintParam(s: string): Parsed<u32>
  {
    var p := U64Param(s);
    Parsed(p.value % U32, p.clean)
  }

  /**
   * `get_uint_param` and `get_u64_param`: store the number, then exit
   * with status 1 unless the whole rest of the string was digits.
   */
  method GetU64Param(s: string) returns (dest: u64, exited: bool)
    ensures Parsed(dest, !exited) == U64Param(s)
  {
    var base, start := GetParamBaseAndStart(s, 0);
    var end;
    dest, end := StrToUL(s[start..], base).0, StrToUL(s[start..], base).1;
    exited := start + end != |s|;
  }

  method GetUintParam(s: string) returns (dest: u32, exited: bool)
    ensures Parsed(dest, !exited) == UintParam(s)
  {
    var wide;
    wide, exited := GetU64Param(s);
    dest := wide % U32;
  }

  /** The digits of `n` in `base`, most significant first, lower-case letters above 9. */
  function Digits(n: nat, base: nat): (d: string)
    requires 2 <= base <= 16
    ensures |d| >= 1
    ensures forall i :: 0 <= i < |d| ==> IsDigit(d[i], base)
    decreases n
  {
    var c := "0123456789abcdef"[n % base];
    if n < base then [c] else Digits(n / base, base) + [c]
  }

  lemma ValueSnoc(d: string, c: char, base: nat)
    ensures Value(d + [c], base) == Value(d, base) * base + DigitValue(c)
  {
    assert (d + [c])[..|d|] == d;
  }

  lemma DigitsSplit(n: nat, base: nat)
    requires 2 <= base <= 16
    ensures DigitValue("0123456789abcdef"[n % base]) == n % base
    ensures n >= base ==> Digits(n, base) == Digits(n / base, base) + ["0123456789abcdef"[n % base]]
    ensures n < base ==> Digits(n, base) == [] + ["0123456789abcdef"[n % base]] && n / base == 0
  {
  }

  /** Splitting off the last digit: the quotient is smaller and recombines with the remainder. */
  lemma DivStep(n: nat, b: nat)
    requires b >= 2
    ensures (n / b) * b + n % b == n && 0 <= n % b < b
    ensures n >= 1 ==> n / b < n
  {
    var q := n / b;
    assert q * b + n % b == n;
    if q >= 1 {
      assert q * b == q * (b - 2) + 2 * q;
      assert q * (b - 2) >= 0;
    }
  }

  lemma {:induction false} DigitsValue(n: nat, base: nat)
    requires 2 <= base <= 16
    ensures Value(Digits(n, base), base) == n
    decreases n
  {
    DivStep(n, base);
    var q, r := n / base, n % base;
    var c := "0123456789abcdef"[r];
    DigitsSplit(n, base);
    if n >= base {
      DigitsValue(q, base);
      ValueSnoc(Digits(q, base), c, base);
    } else {
      ValueSnoc([], c, base);
    }
  }

  /** A string of digits is all consumed by `strtoul`. */
  lemma {:induction false} AllDigitsRun(s: string, base: nat)
    requires forall i :: 0 <= i < |s| ==> IsDigit(s[i], base)
    ensures DigitRun(s, base) == |s|
  {
    if s != [] {
      AllDigitsRun(s[1..], base);
    }
  }

  /** Only the decimal digits of 0 start with `0`. */
  lemma {:induction false} DigitsLead(n: nat, base: nat)
    requires 2 <= base <= 16
    ensures Digits(n, base)[0] == '0' ==> n == 0
    decreases n
  {
    if n >= base {
      DigitsLead(n / base, base);
    }
  }

  /**
   * `(0|[1-9][0-9]*)` is a decimal number: a number written in decimal is
   * read back, saturated to 64 bits, and truncated to 32 bits for an
   * `unsigned int` parameter.
   */
  lemma DecimalRoundTrip(n: nat)
    ensures U64Param(Digits(n, 10)) == Parsed(Saturate(n), true)
    ensures UintParam(Digits(n, 10)) == Parsed(Saturate(n) % U32, true)
  {
    var d := Digits(n, 10);
    DigitsLead(n, 10);
    if |d| >= 2 {
      assert d[0] != '0' by {
        assert n >= 10;
      }
    }
    assert PrefixOf(d) == (10, 0);
    assert d[0..] == d;
    AllDigitsRun(d, 10);
    assert d[..|d|] == d;
    DigitsValue(n, 10);
  }

  /** `0[xX][0-9a-fA-F]+` is a hexadecimal number. */
  lemma HexRoundTrip(n: nat, upper: bool)
    ensures var x := if upper then 'X' else 'x';
      U64Param(['0', x] + Digits(n, 16)) == Parsed(Saturate(n), true)
  {
    var x := if upper then 'X' else 'x';
    var d := Digits(n, 16);
    var s := ['0', x] + d;
    assert PrefixOf(s) == (16, 2);
    assert s[2..] == d;
    AllDigitsRun(d, 16);
    assert d[..|d|] == d;
    DigitsValue(n, 16);
  }

  /** `0[0-7]+` is an octal number. */
  lemma OctalRoundTrip(n: nat)
    ensures U64Param(['0'] + Digits(n, 8)) == Parsed(Saturate(n), true)
  {
    var d := Digits(n, 8);
    var s := ['0'] + d;
    assert s[1] == d[0] && IsDigit(d[0], 8);
    assert PrefixOf(s) == (8, 1);
    assert s[1..] == d;
    AllDigitsRun(d, 8);
    assert d[..|d|] == d;
    DigitsValue(n, 8);
  }

  /**
   * A parameter is accepted exactly when every character after the prefix
   * is a digit of the base the prefix chose.
   */
  lemma CleanIffDigits(s: string)
    ensures var (base, skip) := PrefixOf(s);
      U64Param(s).clean <==> forall i :: skip <= i < |s| ==> IsDigit(s[i], base)
  {
    var (base, skip) := PrefixOf(s);
    var rest := s[skip..];
    var n := DigitRun(rest, base);
    if n < |rest| {
      assert !IsDigit(s[skip + n], base) by {
        assert rest[n] == s[skip + n];
      }
    } else {
      forall i | skip <= i < |s|
        ensures IsDigit(s[i], base)
      {
        assert s[i] == rest[i - skip];
      }
    }
  }

  /* ---------------------------------------------------------------- */
  /* The option loop                                                    */

  /** One option as `getopt_long` returns it: its letter and its argument. */
  datatype Opt = Opt(name: char, arg: string)

  /** How `process_args` ends: by `exit(status)` or by returning `code`. */
  datatype Status = Exited(status: int) | Returned(code: int)

  /** The fields of `struct grbtest_config`. */
  datatype Settings = Settings(
    test: u32, inSeed: u64, seed: u64, keyMask: u32, objectCount: u32, poolCount: u32,
    reps: u32, humanReadable: int, delimiter: string, textEnclosure: string, printHeader: int)

  /** The configuration `process_args` starts from. */
  function Defaults(): Settings
  {
    Settings(0, 0, 0, 0xff, 0x100, 1, 1, 0, ",", "'", 0)
  }

  /** One option: the new settings, and the way `process_args` ends if it ends here. */
  function Step(st: Settings, o: Opt): (Settings, Option<Status>)
  {
    var exitIf := (clean: bool) => if clean then None else Some(Exited(1));
    match o.name
    case 'h' => (st, Some(Exited(1)))
    case 't' => var p := UintParam(o.arg); (st.(test := p.value), exitIf(p.clean))
    case 's' => var p := U64Param(o.arg); (st.(inSeed := p.value), exitIf(p.clean))
    case 'm' => var p := UintParam(o.arg); (st.(keyMask := p.value), exitIf(p.clean))
    case 'c' => var p := UintParam(o.arg); (st.(objectCount := p.value), exitIf(p.clean))
    case 'r' => var p := UintParam(o.arg); (st.(reps := p.value), exitIf(p.clean))
    case 'p' => var p := UintParam(o.arg); (st.(poolCount := p.value), exitIf(p.clean))
    case 'u' => (st.(humanReadable := 1), None)
    case 'd' => (st.(delimiter := o.arg), None)
    case 'q' => (st.(textEnclosure := o.arg), None)
    case 'H' => (st.(printHeader := 1), None)
    case _ => (st, Some(Returned(-1)))
  }

  /** The options in order, up to the first that ends `process_args`. */
  function Run(st: Settings, opts: seq<Opt>): (Settings, Option<Status>)
    decreases |opts|
  {
    if opts == [] then (st, None)
    else
      var (st', stop) := Step(st, opts[0]);
      if stop.Some? then (st', stop) else Run(st', opts[1..])
  }

  /** `process_args`: the options, then the checks on what is left and on the test number. */
  function Process(opts: seq<Opt>, leftover: nat): (Settings, Status)
  {
    var (st, stop) := Run(Defaults(), opts);
    if stop.Some? then (st, stop.value)
    else if leftover > 0 then (st, Returned(-1))
    else if st.test >= GrbCommon.TYPE_COUNT then (st, Returned(-1))
    else (st, Returned(0))
  }

  /** With no options and no arguments every field keeps its default and the call succeeds. */
  lemma NoArguments()
    ensures Process([], 0) == (Defaults(), Returned(0))
    ensures var d := Defaults();
      && d.test == 0 && d.inSeed == 0 && d.seed == 0 && d.keyMask == 0xff && d.objectCount == 0x100
      && d.poolCount == 1 && d.reps == 1 && d.humanReadable == 0 && d.delimiter == "," && d.textEnclosure == "'"
      && d.printHeader == 0
  {
  }

  /** An option ends the loop only by `exit(1)` or by returning -1. */
  lemma {:induction false} RunStops(st: Settings, opts: seq<Opt>)
    ensures Run(st, opts).1 in {None, Some(Exited(1)), Some(Returned(-1))}
    decreases |opts|
  {
    if opts != [] {
      var (st', stop) := Step(st, opts[0]);
      if stop.None? {
        RunStops(st', opts[1..]);
      }
    }
  }

  /**
   * `process_args` returns 0 exactly when no option ended it, nothing is
   * left over, and the test number names a test kind.
   */
  lemma ProcessSucceeds(opts: seq<Opt>, leftover: nat)
    ensures Process(opts, leftover).1 == Returned(0) <==>
      && Run(Defaults(), opts).1.None? && leftover == 0
      && GrbCommon.TypeOf(Process(opts, leftover).0.test).Some?
  {
    var st := Run(Defaults(), opts).0;
    RunStops(Defaults(), opts);
    assert Process(opts, leftover).0 == st;
    assert GrbCommon.TypeOf(st.test).Some? <==> st.test < GrbCommon.TYPE_COUNT;
  }

  /** Every option letter `getopt_long` can return other than the eleven listed ends the call with -1. */
  lemma UnknownOption(st: Settings, o: Opt, rest: seq<Opt>)
    requires o.name !in "htsmcrpudqH"
    ensures Run(st, [o] + rest) == (st, Some(Returned(-1)))
  {
  }

  /** A number option with trailing characters exits with status 1, whatever follows. */
  lemma BadNumberExits(st: Settings, o: Opt, rest: seq<Opt>)
    requires o.name in "tmcrp" && !UintParam(o.arg).clean
    ensures Run(st, [o] + rest).1 == Some(Exited(1))
  {
    assert ([o] + rest)[0] == o;
  }

  /** Options ahead of the first that ends the call are applied one after another. */
  lemma {:induction false} RunAppend(st: Settings, opts: seq<Opt>, o: Opt)
    requires Run(st, opts).1.None?
    ensures Run(st, opts + [o]) == Step(Run(st, opts).0, o)
    decreases |opts|
  {
    if opts == [] {
      assert [] + [o] == [o];
    } else {
      var (st', stop) := Step(st, opts[0]);
      assert (opts + [o])[0] == opts[0];
      assert (opts + [o])[1..] == opts[1..] + [o];
      RunAppend(st', opts[1..], o);
    }
  }

  /** `struct grbtest_config`, filled in place by `process_args`. */
  class Config {
    var test: u32
    var inSeed: u64
    var seed: u64
    var keyMask: u32
    var objectCount: u32
    var poolCount: u32
    var reps: u32
    var humanReadable: int
    var delimiter: string
    var textEnclosure: string
    var printHeader: int

    constructor()
    {
    }

    ghost function Snapshot(): Settings
      reads this
    {
      Settings(test, inSeed, seed, keyMask, objectCount, poolCount, reps, humanReadable, delimiter,
               textEnclosure, printHeader)
    }

    /**
     * `process_args`: set the defaults, apply the options until one exits
     * or is unknown, then reject arguments left over and a test number
     * past the last kind.
     */
    method ProcessArgs(opts: seq<Opt>, leftover: nat) returns (status: Status)
      modifies this
      ensures (Snapshot(), status) == Process(opts, leftover)
    {
      test, inSeed, seed, keyMask, objectCount := 0, 0, 0, 0xff, 0x100;
      poolCount, reps, humanReadable := 1, 1, 0;
      delimiter, textEnclosure, printHeader := ",", "'", 0;
      var i := 0;
      while i < |opts|
        invariant 0 <= i <= |opts|
        invariant Run(Defaults(), opts) == Run(Snapshot(), opts[i..])
      {
        var stop := ApplyOption(opts[i]);
        assert opts[i..][0] == opts[i] && opts[i..][1..] == opts[i + 1..];
        if stop.Some? {
          return stop.value;
        }
        i := i + 1;
      }
      if leftover > 0 {
        return Returned(-1);
      }
      if test >= GrbCommon.TYPE_COUNT as u32 {
        return Returned(-1);
      }
      return Returned(0);
    }

    /** The `switch` of `process_args` for one option. */
    method ApplyOption(o: Opt) returns (stop: Option<Status>)
      modifies this
      ensures (Snapshot(), stop) == Step(old(Snapshot()), o)
    {
      var exited := false;
      match o.name {
      case 'h' => return Some(Exited(1));
      case 't' => test, exited := GetUintParam(o.arg);
      case 's' => inSeed, exited := GetU64Param(o.arg);
      case 'm' => keyMask, exited := GetUintParam(o.arg);
      case 'c' => objectCount, exited := GetUintParam(o.arg);
      case 'r' => reps, exited := GetUintParam(o.arg);
      case 'p' => poolCount, exited := GetUintParam(o.arg);
      case 'u' => humanReadable := 1;
      case 'd' => delimiter := o.arg;
      case 'q' => textEnclosure := o.arg;
      case 'H' => printHeader := 1;
      case _ => return Some(Returned(-1));
      }
      stop := if exited then Some(Exited(1)) else None;
    }
  }
}
