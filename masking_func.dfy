/** The `preserveEnds` masking strategy: `MaskPreserveEnds(arg, value)` keeps the
    first `start` and the last `end` code points of `value` and replaces the
    ones between with the mask character. `start` and `end` default to 3 and are
    read from an argument of the form `(start,end)`. Go's `int` is 64 bits wide
    here, so an argument can overflow `start + end`, and a negative or overflowing
    argument makes the Go code panic; both are explicit in the model. */
module Masker {
  import opened GoInt
  import opened GoStrconv
  import opened GoStrings

  /** The strategy name under which `MaskPreserveEnds` is meant to be registered. */
  const MaskTypePreserveEnds: string := "preserveEnds"

  /** The number of code points kept at each end when the argument does not say. */
  const DefaultKeep: int := 3

  /** A Go `error` value. */
  datatype Error = Nil | NonNil(message: string)

  /** How a call of `MaskPreserveEnds` ends: it returns `(string, error)`, or the
      Go runtime panics (a slice bound out of range, or a `strings.Repeat` call
      that cannot build its result). */
  datatype Outcome = Returned(value: string, err: Error) | Panicked

  /** One comma-separated part of the argument: its trimmed text read by `Atoi`,
      or `default` when that fails. */
  function ParsedOr(part: string, default: int): (v: int)
    requires InRange(default)
    ensures InRange(v)
    ensures v == default || Atoi(TrimSpace(part)) == Ok(v)
  {
    match Atoi(TrimSpace(part))
    case Ok(n) => n
    case Err(_) => default
  }

  /** The `(start, end)` pair that `MaskPreserveEnds` reads from `arg`: the text
      between the first `(` and the first `)` (when that `)` comes after the `(`)
      is split on `,`; with at least two parts, the first two override the
      defaults each on its own. */
  function ParseArgs(arg: string): (r: (int, int))
    ensures InRange(r.0) && InRange(r.1)
  {
    var openIdx := Index(arg, '(');
    var closeIdx := Index(arg, ')');
    if openIdx >= 0 && closeIdx > openIdx then
      var parts := Split(arg[openIdx + 1..closeIdx], ',');
      if |parts| >= 2 then (ParsedOr(parts[0], DefaultKeep), ParsedOr(parts[1], DefaultKeep))
      else (DefaultKeep, DefaultKeep)
    else (DefaultKeep, DefaultKeep)
  }

  /** `value` with its first `keepStart` and last `keepEnd` code points kept and
      every code point between them replaced by one copy of `maskChar`. */
  function KeepEnds(maskChar: string, value: string, keepStart: nat, keepEnd: nat): (r: string)
    requires keepStart + keepEnd <= |value|
    ensures keepStart + keepEnd <= |r|
    ensures r[..keepStart] == value[..keepStart]
    ensures r[|r| - keepEnd..] == value[|value| - keepEnd..]
  {
    var front, back := value[..keepStart], value[|value| - keepEnd..];
    var r := front + Repeat(maskChar, |value| - keepStart - keepEnd) + back;
    assert r[..keepStart] == front;
    assert r[|r| - keepEnd..] == back;
    r
  }

  /** The second stage of `MaskPreserveEnds`, on a non-empty value and the parsed
      `start` and `end`: when `start + end` (a Go `int` sum) reaches the length, a
      value of at most 3 code points is masked entirely and a longer one keeps
      one code point at each end; otherwise non-negative `start` and `end` whose
      true sum is below the length are kept, and anything else panics. */
  function MaskRunes(maskChar: string, start: int, end: int, value: string): (o: Outcome)
    requires InRange(start) && InRange(end) && value != []
    ensures o.Returned? ==> o.err == Nil
  {
    var n := |value|;
    if Add(start, end) >= n then
      if n <= 3 then Returned(Repeat(maskChar, n), Nil)
      else Returned(KeepEnds(maskChar, value, 1, 1), Nil)
    else if 0 <= start && 0 <= end && start + end < n then
      Returned(KeepEnds(maskChar, value, start, end), Nil)
    else Panicked
  }

  /** What `MaskPreserveEnds(arg, value)` does: an empty value comes back as is,
      whatever `arg` holds; any other value is masked with the `start` and `end`
      read from `arg`. */
  function PreserveEnds(maskChar: string, arg: string, value: string): (o: Outcome)
    ensures o.Returned? ==> o.err == Nil
  {
    if value == [] then Returned([], Nil)
    else
      var (start, end) := ParseArgs(arg);
      MaskRunes(maskChar, start, end, value)
  }

  /** The first stage of `MaskPreserveEnds`, step by step: `start` and `end` are
      set to their defaults and each is overwritten by its part of the argument
      when `Atoi` reads that part. */
  method ReadCounts(arg: string) returns (start: int, end: int)
    ensures (start, end) == ParseArgs(arg)
  {
    start, end := DefaultKeep, DefaultKeep;
    var openIdx := Index(arg, '(');
    var closeIdx := Index(arg, ')');
    if openIdx >= 0 && closeIdx > openIdx {
      var parts := Split(arg[openIdx + 1..closeIdx], ',');
      if |parts| >= 2 {
        var s := Atoi(TrimSpace(parts[0]));
        if s.Ok? {
          start := s.value;
        }
        var e := Atoi(TrimSpace(parts[1]));
        if e.Ok? {
          end := e.value;
        }
      }
    }
  }

  /** `MaskPreserveEnds`, step by step as the Go function runs it: `start` and
      `end` come from `ReadCounts`, are reset to 1 in the collapse case, and the
      result is built by three appends to a builder. The call panics exactly
      when Go's does; which statement panics may differ, since Go bounds
      `runes[:start]` by the capacity of `runes` rather than by its length, and
      when `start` lies between the two the slice `runes[runeCount-end:]`
      panics instead. */
  method MaskPreserveEnds(maskChar: string, arg: string, value: string) returns (o: Outcome)
    requires |value| <= MaxInt
    ensures o == PreserveEnds(maskChar, arg, value)
  {
    if value == [] {
      return Returned([], Nil);
    }

    var start, end := ReadCounts(arg);
    ghost var spec := MaskRunes(maskChar, start, end, value);
    ghost var start0, end0 := start, end;
    assert PreserveEnds(maskChar, arg, value) == spec;

    var runeCount := |value|;

    if Add(start, end) >= runeCount {
      if runeCount <= 3 {
        return Returned(Repeat(maskChar, runeCount), Nil);
      }
      start := 1;
      end := 1;
    }

    ghost var collapsed := Add(start0, end0) >= runeCount;
    assert if collapsed then start == 1 && end == 1 && runeCount > 3 else start == start0 && end == end0;

    var runes := value;

    var sb: string := [];
    // runes[:start], bounded here by the length
    if start < 0 || start > |runes| {
      return Panicked;
    }
    sb := sb + runes[..start];
    assert sb == value[..start];

    var maskLength := Sub(Sub(runeCount, start), end);
    // strings.Repeat with a negative count
    if maskLength < 0 {
      return Panicked;
    }
    sb := sb + Repeat(maskChar, maskLength);
    assert sb == value[..start] + Repeat(maskChar, maskLength);

    // runes[runeCount-end:]
    var from := Sub(runeCount, end);
    assert 0 <= end <= runeCount ==> from == runeCount - end;
    if from < 0 || from > |runes| {
      assert !(0 <= end <= runeCount) && !collapsed;
      return Panicked;
    }
    assert from == runeCount - end && maskLength == runeCount - start - end;
    sb := sb + runes[from..];
    assert sb == KeepEnds(maskChar, value, start, end);

    return Returned(sb, Nil);
  }

  // ---------------------------------------------------------------------------
  // Reading the argument

  /** Without a `(`, or without a `)`, both counts keep their default. */
  lemma NoParensKeepsDefaults(arg: string)
    requires '(' !in arg || ')' !in arg
    ensures ParseArgs(arg) == (DefaultKeep, DefaultKeep)
  {
    IndexIsFirst(arg, '(');
    IndexIsFirst(arg, ')');
  }

  /** A `)` before the first `(` leaves both counts at their default. */
  lemma CloseBeforeOpenKeepsDefaults(p: string, q: string)
    requires '(' !in p
    ensures ParseArgs(p + [')'] + q) == (DefaultKeep, DefaultKeep)
  {
    var arg := p + [')'] + q;
    IndexIsFirst(arg, '(');
    IndexIsFirst(arg, ')');
    var openIdx := Index(arg, '(');
    var closeIdx := Index(arg, ')');
    assert arg[|p|] == ')';
  }

  /** The argument text from the first `(` to the first `)` after it, with the
      positions of both. */
  lemma ParensAt(p: string, inner: string, q: string)
    requires '(' !in p && ')' !in p && ')' !in inner
    ensures Index(p + ['('] + inner + [')'] + q, '(') == |p|
    ensures Index(p + ['('] + inner + [')'] + q, ')') == |p| + 1 + |inner|
    ensures (p + ['('] + inner + [')'] + q)[|p| + 1..|p| + 1 + |inner|] == inner
  {
    var arg := p + ['('] + inner + [')'] + q;
    assert arg == p + ['('] + (inner + [')'] + q);
    IndexAfter(p, '(', inner + [')'] + q);
    assert arg == (p + ['('] + inner) + [')'] + q;
    IndexAfter(p + ['('] + inner, ')', q);
  }

  /** With `inner` between the first `(` and the first `)`, the counts come from
      the pieces of `inner` split on `,`. */
  lemma ParseArgsBetween(p: string, inner: string, q: string)
    requires '(' !in p && ')' !in p && ')' !in inner
    ensures var parts := Split(inner, ',');
      ParseArgs(p + ['('] + inner + [')'] + q)
        == if |parts| >= 2 then (ParsedOr(parts[0], DefaultKeep), ParsedOr(parts[1], DefaultKeep))
           else (DefaultKeep, DefaultKeep)
  {
    var arg := p + ['('] + inner + [')'] + q;
    ParensAt(p, inner, q);
    assert Index(arg, '(') + 1 == |p| + 1 && Index(arg, ')') == |p| + 1 + |inner|;
    assert arg[Index(arg, '(') + 1..Index(arg, ')')] == inner;
  }

  /** Parenthesised text without a comma has fewer than two parts: both counts
      keep their default. */
  lemma NoCommaKeepsDefaults(p: string, inner: string, q: string)
    requires '(' !in p && ')' !in p && ')' !in inner && ',' !in inner
    ensures ParseArgs(p + ['('] + inner + [')'] + q) == (DefaultKeep, DefaultKeep)
  {
    ParseArgsBetween(p, inner, q);
    SplitCount(inner, ',');
  }

  /** The first two pieces of `a + "," + b + rest`, when neither `a` nor `b` holds
      a comma and `rest` is empty or starts with one, are `a` and `b`. */
  lemma FirstTwoPieces(a: string, b: string, rest: string)
    requires ',' !in a && ',' !in b
    requires rest == [] || rest[0] == ','
    ensures |Split(a + [','] + b + rest, ',')| >= 2
    ensures Split(a + [','] + b + rest, ',')[0] == a
    ensures Split(a + [','] + b + rest, ',')[1] == b
  {
    assert a + [','] + b + rest == a + [','] + (b + rest);
    SplitFirst(a, ',', b + rest);
    if rest == [] {
      assert b + rest == b;
      IndexIsFirst(b, ',');
    } else {
      assert b + rest == b + [','] + rest[1..];
      SplitFirst(b, ',', rest[1..]);
    }
  }

  /** With at least two comma-separated parts `a` and `b` between the
      parentheses, `start` is read from `a` alone and `end` from `b` alone, each
      falling back to its own default; whatever follows `b` is ignored. */
  lemma ParseArgsParts(p: string, a: string, b: string, rest: string, q: string)
    requires '(' !in p && ')' !in p
    requires ')' !in a && ')' !in b && ')' !in rest
    requires ',' !in a && ',' !in b
    requires rest == [] || rest[0] == ','
    ensures ParseArgs(p + ['('] + (a + [','] + b + rest) + [')'] + q)
         == (ParsedOr(a, DefaultKeep), ParsedOr(b, DefaultKeep))
  {
    var inner := a + [','] + b + rest;
    assert ')' !in inner;
    ParseArgsBetween(p, inner, q);
    FirstTwoPieces(a, b, rest);
  }

  /** A part is read after trimming: white space around a number does not
      matter, and anything `Atoi` rejects leaves the default. */
  lemma ParsedOrTrimmed(pre: string, core: string, post: string, default: int)
    requires InRange(default) && AllSpace(pre) && AllSpace(post)
    requires core == [] || (!IsSpace(core[0]) && !IsSpace(core[|core| - 1]))
    ensures ParsedOr(pre + core + post, default) == if Atoi(core).Ok? then Atoi(core).value else default
  {
    TrimSpacePadded(pre, core, post);
  }

  /** `"(a,b)"` with no comma or closing parenthesis inside either part reads
      the two parts. */
  lemma ParseArgsPair(a: string, b: string)
    requires ',' !in a && ')' !in a && ',' !in b && ')' !in b
    ensures ParseArgs("(" + a + "," + b + ")") == (ParsedOr(a, DefaultKeep), ParsedOr(b, DefaultKeep))
  {
    ParseArgsParts([], a, b, [], []);
    assert "(" + a + "," + b + ")" == [] + ['('] + (a + [','] + b + []) + [')'] + [];
  }

  /** A count written with `Itoa` is read back exactly. */
  lemma ParsedOrItoa(n: int)
    requires InRange(n)
    ensures ParsedOr(Itoa(n), DefaultKeep) == n
  {
    var a := Itoa(n);
    assert !IsSpace(a[0]) && !IsSpace(a[|a| - 1]) by {
      ItoaChars(n);
    }
    assert ParsedOr(a, DefaultKeep) == ParsedOr([] + a + [], DefaultKeep) by {
      assert [] + a + [] == a;
    }
    ParsedOrTrimmed([], a, [], DefaultKeep);
    AtoiItoa(n);
  }

  /** Counts written back with `Itoa` as `"(start,end)"` are read back exactly. */
  lemma ParseArgsItoa(start: int, end: int)
    requires InRange(start) && InRange(end)
    ensures ParseArgs("(" + Itoa(start) + "," + Itoa(end) + ")") == (start, end)
  {
    ItoaChars(start);
    ItoaChars(end);
    ParseArgsPair(Itoa(start), Itoa(end));
    ParsedOrItoa(start);
    ParsedOrItoa(end);
  }

  // ---------------------------------------------------------------------------
  // The transform

  /** With a one-character mask, `KeepEnds` keeps the length, keeps the code
      points outside the masked middle and puts the mask character at every
      position inside it. */
  lemma KeepEndsAt(maskChar: string, value: string, keepStart: nat, keepEnd: nat)
    requires |maskChar| == 1 && keepStart + keepEnd <= |value|
    ensures |KeepEnds(maskChar, value, keepStart, keepEnd)| == |value|
    ensures forall i :: 0 <= i < |value| ==>
      KeepEnds(maskChar, value, keepStart, keepEnd)[i]
        == if keepStart <= i < |value| - keepEnd then maskChar[0] else value[i]
  {
    var n := |value|;
    var middle := Repeat(maskChar, n - keepStart - keepEnd);
    RepeatChar(maskChar, n - keepStart - keepEnd);
    var r := KeepEnds(maskChar, value, keepStart, keepEnd);
    assert r == value[..keepStart] + middle + value[n - keepEnd..];
    forall i | 0 <= i < n
      ensures r[i] == if keepStart <= i < n - keepEnd then maskChar[0] else value[i]
    {
      if i < keepStart {
        assert r[i] == value[..keepStart][i];
      } else if i < n - keepEnd {
        assert r[i] == middle[i - keepStart];
      } else {
        assert r[i] == value[n - keepEnd..][i - (n - keepEnd)];
      }
    }
  }

  /** Every result is the value with its two ends kept and a non-empty middle
      masked: nothing kept when the value has at most 3 code points and the
      counts reach its length, one code point at each end for a longer value,
      and otherwise exactly the parsed counts. */
  lemma ReturnedShape(maskChar: string, arg: string, value: string) returns (keepStart: nat, keepEnd: nat)
    requires value != [] && PreserveEnds(maskChar, arg, value).Returned?
    ensures keepStart + keepEnd < |value|
    ensures PreserveEnds(maskChar, arg, value).value == KeepEnds(maskChar, value, keepStart, keepEnd)
    ensures var (start, end) := ParseArgs(arg);
      (keepStart, keepEnd) == if Add(start, end) < |value| then (start, end)
                              else if |value| <= 3 then (0, 0)
                              else (1, 1)
  {
    var (start, end) := ParseArgs(arg);
    var n := |value|;
    if Add(start, end) < n {
      keepStart, keepEnd := start, end;
    } else if n <= 3 {
      keepStart, keepEnd := 0, 0;
      assert value[..0] + Repeat(maskChar, n) + value[n..] == Repeat(maskChar, n);
    } else {
      keepStart, keepEnd := 1, 1;
    }
  }

  /** With a one-character mask, every non-empty result has as many code points
      as the value and masks at least one of them (the one at `keepStart`); the
      others are the value's own. */
  lemma SingleCharMask(maskChar: string, arg: string, value: string) returns (keepStart: nat, keepEnd: nat)
    requires |maskChar| == 1 && value != [] && PreserveEnds(maskChar, arg, value).Returned?
    ensures keepStart + keepEnd < |value|
    ensures |PreserveEnds(maskChar, arg, value).value| == |value|
    ensures forall i :: 0 <= i < |value| ==>
      PreserveEnds(maskChar, arg, value).value[i]
        == if keepStart <= i < |value| - keepEnd then maskChar[0] else value[i]
    ensures PreserveEnds(maskChar, arg, value).value[keepStart] == maskChar[0]
  {
    keepStart, keepEnd := ReturnedShape(maskChar, arg, value);
    KeepEndsAt(maskChar, value, keepStart, keepEnd);
  }

  /** An empty value comes back empty with a nil error, whatever the argument. */
  lemma EmptyValue(maskChar: string, arg: string)
    ensures PreserveEnds(maskChar, arg, []) == Returned([], Nil)
  {
  }

  /** When the counts reach the length of a value of at most 3 code points, the
      whole value is masked. */
  lemma ShortValueFullyMasked(maskChar: string, arg: string, value: string)
    requires 0 < |value| <= 3
    requires Add(ParseArgs(arg).0, ParseArgs(arg).1) >= |value|
    ensures PreserveEnds(maskChar, arg, value) == Returned(Repeat(maskChar, |value|), Nil)
  {
  }

  /** When the counts reach the length of a longer value, one code point is kept
      at each end and the other `|value| - 2` are masked. */
  lemma CollapseKeepsOneAtEachEnd(maskChar: string, arg: string, value: string)
    requires |value| > 3
    requires Add(ParseArgs(arg).0, ParseArgs(arg).1) >= |value|
    ensures PreserveEnds(maskChar, arg, value)
         == Returned([value[0]] + Repeat(maskChar, |value| - 2) + [value[|value| - 1]], Nil)
  {
    assert value[..1] == [value[0]];
    assert value[|value| - 1..] == [value[|value| - 1]];
  }

  /** Non-negative counts whose sum is below the length are kept exactly, and
      the `|value| - start - end` code points between them are masked. */
  lemma CountsKept(maskChar: string, arg: string, value: string)
    requires var (start, end) := ParseArgs(arg); 0 <= start && 0 <= end && start + end < |value|
    ensures var (start, end) := ParseArgs(arg);
      PreserveEnds(maskChar, arg, value)
        == Returned(value[..start] + Repeat(maskChar, |value| - start - end) + value[|value| - end..], Nil)
  {
  }

  /** A negative count that does not bring `start + end` up to the length makes
      the call panic rather than clamp: at a slice (`runes[:start]` or
      `runes[runeCount-end:]`), or, for a very negative `end`, in
      `strings.Repeat`, whose count `runeCount - start - end` wraps to a negative
      value. */
  lemma NegativeCountPanics(maskChar: string, arg: string, value: string)
    requires value != []
    requires ParseArgs(arg).0 < 0 || ParseArgs(arg).1 < 0
    requires Add(ParseArgs(arg).0, ParseArgs(arg).1) < |value|
    ensures PreserveEnds(maskChar, arg, value) == Panicked
  {
  }

  /** Non-negative counts whose true sum fits in an `int` never make it panic. */
  lemma NoPanicForFittingCounts(maskChar: string, arg: string, value: string)
    requires var (start, end) := ParseArgs(arg); 0 <= start && 0 <= end && start + end <= MaxInt
    ensures PreserveEnds(maskChar, arg, value).Returned?
  {
    var (start, end) := ParseArgs(arg);
    AddNonNegative(start, end);
  }

  /** Non-negative counts whose true sum exceeds MaxInt wrap to a negative Go
      sum, so the collapse is skipped and the slicing panics; with unbounded
      integers such a value would have been collapsed instead. */
  lemma OverflowingCountsPanic(maskChar: string, arg: string, value: string)
    requires 0 < |value| <= MaxInt
    requires var (start, end) := ParseArgs(arg); 0 <= start && 0 <= end && start + end > MaxInt
    ensures PreserveEnds(maskChar, arg, value) == Panicked
  {
    var (start, end) := ParseArgs(arg);
    AddNonNegative(start, end);
  }

  /** When a call panics, classified by the true sums: a non-empty value
      panics exactly when a count is negative and the Go sum stays below the
      length, or when both counts are non-negative and their true sum exceeds
      `MaxInt`. */
  lemma PanicsExactly(maskChar: string, arg: string, value: string)
    requires |value| <= MaxInt
    ensures var (start, end) := ParseArgs(arg);
      PreserveEnds(maskChar, arg, value) == Panicked <==>
        value != [] && (((start < 0 || end < 0) && Add(start, end) < |value|)
                        || (0 <= start && 0 <= end && start + end > MaxInt))
  {
  }

  // ---------------------------------------------------------------------------
  // Examples
  //
  // Some examples take their literals as parameters fixed by `requires`: the
  // solver then unfolds the parsing functions on them only as far as needed.

  /** `"1234567890"` with `"(3,3)"` keeps three code points at each end. */
  lemma ExampleThreeThree(three: string, value: string)
    requires three == "3" && value == "1234567890"
    ensures PreserveEnds("*", "(" + three + "," + three + ")", value) == Returned("123****890", Nil)
  {
    var arg := "(" + three + "," + three + ")";
    assert ParseArgs(arg) == (3, 3) by {
      ParseArgsPair(three, three);
      ParsedOrTrimmed([], three, [], DefaultKeep);
      assert [] + three + [] == three;
      AtoiOneDigit('3');
    }
    CountsKept("*", arg, value);
    assert value[..3] + Repeat("*", 4) + value[10 - 3..] == "123****890" by {
      assert Repeat("*", 4) == "****";
      assert value[..3] == "123" && value[10 - 3..] == "890";
    }
  }

  /** `"abc"` with the default counts is masked entirely. */
  lemma ExampleShort()
    ensures PreserveEnds("*", "", "abc") == Returned("***", Nil)
  {
    NoParensKeepsDefaults("");
    assert Repeat("*", 3) == "***";
  }

  /** `"abcde"` with the default counts keeps one code point at each end. */
  lemma ExampleCollapse()
    ensures PreserveEnds("*", "", "abcde") == Returned("a***e", Nil)
  {
    NoParensKeepsDefaults("");
    assert Repeat("*", 3) == "***";
  }

  /** An unreadable part keeps its default while the other part overrides,
      and a third part is ignored: `"( 2 , x , 9)"` reads as `(2, 3)`. */
  lemma ExampleUnreadablePart(two: string, x: string, nine: string)
    requires two == " 2 " && x == " x " && nine == " 9"
    ensures ParseArgs("(" + two + "," + x + "," + nine + ")") == (2, 3)
  {
    assert ',' !in two && ')' !in two && ',' !in x && ')' !in x && ')' !in nine;
    ParseArgsParts([], two, x, [','] + nine, []);
    assert "(" + two + "," + x + "," + nine + ")" == [] + ['('] + (two + [','] + x + ([','] + nine)) + [')'] + [];
    SpacedParts(two, x);
  }

  /** The two parts of the example above, read on their own. */
  lemma SpacedParts(two: string, x: string)
    requires two == " 2 " && x == " x "
    ensures ParsedOr(two, DefaultKeep) == 2 && ParsedOr(x, DefaultKeep) == DefaultKeep
  {
    assert ParsedOr(two, DefaultKeep) == 2 by {
      ParsedOrTrimmed(" ", "2", " ", DefaultKeep);
      assert two == " " + "2" + " ";
      AtoiOneDigit('2');
    }
    assert ParsedOr(x, DefaultKeep) == DefaultKeep by {
      ParsedOrTrimmed(" ", "x", " ", DefaultKeep);
      assert x == " " + "x" + " ";
    }
  }

  /** `"(-1,3)"` on an 8-code-point value panics: `runes[:-1]`. */
  lemma ExampleNegativePanics(minusOne: string, three: string, value: string)
    requires minusOne == "-1" && three == "3" && value == "abcdefgh"
    ensures PreserveEnds("*", "(" + minusOne + "," + three + ")", value) == Panicked
  {
    var arg := "(" + minusOne + "," + three + ")";
    assert ParseArgs(arg) == (ParsedOr(minusOne, DefaultKeep), ParsedOr(three, DefaultKeep)) by {
      ParseArgsPair(minusOne, three);
    }
    assert ParsedOr(minusOne, DefaultKeep) == -1 by {
      ParsedOrTrimmed([], minusOne, [], DefaultKeep);
      assert [] + minusOne + [] == minusOne;
      AtoiOneDigit('1');
    }
    assert ParsedOr(three, DefaultKeep) == 3 by {
      ParsedOrTrimmed([], three, [], DefaultKeep);
      assert [] + three + [] == three;
      AtoiOneDigit('3');
    }
    NegativeCountPanics("*", arg, value);
  }

  /** `"(9223372036854775807,1)"`, written with `Itoa`, makes any value panic. */
  lemma ExampleOverflowPanics(start: int, arg: string, value: string)
    requires start == MaxInt && arg == "(" + Itoa(start) + "," + Itoa(1) + ")" && 0 < |value| <= MaxInt
    ensures PreserveEnds("*", arg, value) == Panicked
  {
    ParseArgsItoa(start, 1);
    OverflowingCountsPanic("*", arg, value);
  }

  /** `(0,MinInt)` on `"abcde"`: `start + end` is `MinInt`, so the collapse is
      skipped and `runes[:0]` succeeds, but the mask length `5 - 0 - MinInt`
      wraps to a negative Go `int`, so `strings.Repeat` panics. */
  lemma ExampleMinEndPanics(end: int, arg: string, value: string)
    requires end == MinInt && arg == "(" + Itoa(0) + "," + Itoa(end) + ")" && value == "abcde"
    ensures ParseArgs(arg) == (0, end)
    ensures Add(0, end) < |value| && Sub(Sub(|value|, 0), end) < 0
    ensures PreserveEnds("*", arg, value) == Panicked
  {
    ParseArgsItoa(0, end);
  }
}
