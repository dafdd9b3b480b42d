/**
 * The adder application of blt/src/applications/adder.rs: the `sum` command
 * handler run by the shared control-event loop, and the client's generator of
 * test entries.
 *
 * `sum` splits its input on single spaces, parses each piece as an `i32` with
 * Rust's `str::parse::<i32>` and accumulates into an `i32`. The accumulation is
 * modelled with two's-complement wrap-around (a release build); a debug build
 * panics on overflow instead.
 */
module Adder {
  import opened Common
  import opened ServeLoop

  const I32_MIN: int := -0x8000_0000
  const I32_MAX: int := 0x7fff_ffff

  /** An `i32` addition as a release build performs it: modulo 2^32, into [I32_MIN, I32_MAX]. */
  function Wrap(x: int): (r: int)
    ensures I32_MIN <= r <= I32_MAX
    ensures I32_MIN <= x <= I32_MAX ==> r == x
  {
    (x - I32_MIN) % 0x1_0000_0000 + I32_MIN
  }

  /** `i32` addition as a release build performs it: a sum past either end of the range
      comes back in from the other end. */
  function WrappingAdd(a: int, b: int): (r: int)
    requires I32_MIN <= a <= I32_MAX && I32_MIN <= b <= I32_MAX
    ensures I32_MIN <= r <= I32_MAX
  {
    if a + b > I32_MAX then a + b - 0x1_0000_0000
    else if a + b < I32_MIN then a + b + 0x1_0000_0000
    else a + b
  }

  /** The wrapping addition is the sum reduced modulo 2^32 into the `i32` range. */
  lemma WrappingAddIsWrap(a: int, b: int)
    requires I32_MIN <= a <= I32_MAX && I32_MIN <= b <= I32_MAX
    ensures WrappingAdd(a, b) == Wrap(a + b)
  {
  }

  /** Wrapping after every addition is wrapping once at the end. */
  lemma WrapAdd(a: int, b: int)
    ensures Wrap(Wrap(a) + b) == Wrap(a + b)
  {
  }

  predicate IsDigit(c: char)
  {
    '0' <= c <= '9'
  }

  predicate AllDigits(s: string)
  {
    forall i :: 0 <= i < |s| ==> IsDigit(s[i])
  }

  /** The value of a string of decimal digits, most significant first. */
  function DigitsValue(ds: string): (v: nat)
    requires AllDigits(ds)
  {
    if ds == [] then 0
    else DigitsValue(ds[..|ds| - 1]) * 10 + (ds[|ds| - 1] as int - '0' as int)
  }

  /** Rust's `str::parse::<i32>`: an optional `+` or `-`, then one or more decimal digits,
      whose value must lie in the `i32` range; anything else is an error. */
  function ParseI32(t: string): (r: Option<int>)
    ensures r.Some? ==> I32_MIN <= r.value <= I32_MAX
    ensures t == [] ==> r.None?
  {
    if t == [] then None
    else
      var negative := t[0] == '-';
      var digits := if t[0] == '-' || t[0] == '+' then t[1..] else t;
      if digits == [] || !AllDigits(digits) then None
      else
        var v: int := if negative then -(DigitsValue(digits) as int) else DigitsValue(digits);
        if I32_MIN <= v <= I32_MAX then Some(v) else None
  }

  function DigitChar(d: nat): char
    requires d < 10
  {
    ['0', '1', '2', '3', '4', '5', '6', '7', '8', '9'][d]
  }

  /** The decimal representation of a natural number, without leading zeros. */
  function NatToString(n: nat): (s: string)
    ensures s != [] && AllDigits(s)
    ensures |s| > 1 ==> s[0] != '0'
  {
    if n < 10 then [DigitChar(n)] else NatToString(n / 10) + [DigitChar(n % 10)]
  }

  /** Rust's `i32::to_string`. */
  function I32ToString(v: int): (s: string)
    ensures s != []
    ensures s[0] == '-' || IsDigit(s[0])
  {
    if v < 0 then "-" + NatToString(-v) else NatToString(v)
  }

  lemma {:induction false} DigitsValueOfNatToString(n: nat)
    ensures DigitsValue(NatToString(n)) == n
  {
    var s := NatToString(n);
    if n >= 10 {
      assert s[..|s| - 1] == NatToString(n / 10);
      DigitsValueOfNatToString(n / 10);
    }
  }

  /** Printing an `i32` and parsing it back gives the same value. */
  lemma {:induction false} ParseOfToString(v: int)
    requires I32_MIN <= v <= I32_MAX
    ensures ParseI32(I32ToString(v)) == Some(v)
  {
    var t := I32ToString(v);
    if v < 0 {
      var ds := NatToString(-v);
      DigitsValueOfNatToString(-v);
      assert t == "-" + ds;
      assert t[1..] == ds;
    } else {
      var ds := NatToString(v);
      DigitsValueOfNatToString(v);
      assert t == ds;
      assert IsDigit(t[0]);
    }
  }

  /** `str::split(' ')`: the pieces between single spaces, so the empty string gives one
      empty piece and two adjacent spaces give an empty piece between them. */
  function Split(s: string): (pieces: seq<string>)
    ensures |pieces| >= 1
  {
    if s == [] then [""]
    else
      var rest := Split(s[1..]);
      if s[0] == ' ' then [""] + rest
      else [[s[0]] + rest[0]] + rest[1..]
  }

  /** `join(" ")`. */
  function Join(pieces: seq<string>): string
    requires |pieces| >= 1
  {
    if |pieces| == 1 then pieces[0] else pieces[0] + " " + Join(pieces[1..])
  }

  lemma {:induction false} JoinSplit(s: string)
    ensures Join(Split(s)) == s
  {
    if s != [] {
      var rest := Split(s[1..]);
      JoinSplit(s[1..]);
      if s[0] == ' ' {
        JoinAfterEmpty(rest);
      } else if |rest| == 1 {
        JoinPrependSingle(s[0], rest);
      } else {
        JoinPrependMore(s[0], rest);
      }
      assert s == [s[0]] + s[1..];
    }
  }

  lemma JoinAfterEmpty(pieces: seq<string>)
    requires |pieces| >= 1
    ensures Join([""] + pieces) == " " + Join(pieces)
  {
  }

  lemma JoinPrependSingle(c: char, pieces: seq<string>)
    requires |pieces| == 1
    ensures Join([[c] + pieces[0]] + pieces[1..]) == [c] + Join(pieces)
  {
  }

  lemma JoinPrependMore(c: char, pieces: seq<string>)
    requires |pieces| > 1
    ensures Join([[c] + pieces[0]] + pieces[1..]) == [c] + Join(pieces)
  {
  }

  lemma {:induction false} SplitNoSpace(t: string)
    requires ' ' !in t
    ensures Split(t) == [t]
  {
    if t != [] {
      SplitNoSpace(t[1..]);
      assert [t[0]] + t[1..] == t;
    }
  }

  lemma {:induction false} SplitPieceThenSpace(t: string, u: string)
    requires ' ' !in t
    ensures Split(t + " " + u) == [t] + Split(u)
  {
    var s := t + " " + u;
    if t == [] {
      assert s[1..] == u;
    } else {
      assert s[1..] == t[1..] + " " + u;
      SplitPieceThenSpace(t[1..], u);
      assert [t[0]] + t[1..] == t;
    }
  }

  /** Joining space-free pieces and splitting again gives the pieces back. */
  lemma {:induction false} SplitJoin(pieces: seq<string>)
    requires |pieces| >= 1
    requires forall k :: 0 <= k < |pieces| ==> ' ' !in pieces[k]
    ensures Split(Join(pieces)) == pieces
  {
    if |pieces| == 1 {
      SplitNoSpace(pieces[0]);
    } else {
      SplitJoin(pieces[1..]);
      SplitPieceThenSpace(pieces[0], Join(pieces[1..]));
    }
  }

  /** The index of the first piece that does not parse, if any. */
  function FirstInvalid(tokens: seq<string>): (r: Option<nat>)
    ensures r.Some? ==> r.value < |tokens| && ParseI32(tokens[r.value]).None?
                        && forall k :: 0 <= k < r.value ==> ParseI32(tokens[k]).Some?
    ensures r.None? ==> forall k :: 0 <= k < |tokens| ==> ParseI32(tokens[k]).Some?
  {
    if tokens == [] then None
    else if ParseI32(tokens[0]).None? then Some(0)
    else match FirstInvalid(tokens[1..])
      case None => None
      case Some(i) => Some(i + 1)
  }

  /** The exact sum of pieces that all parse. */
  function Total(tokens: seq<string>): int
    requires forall k :: 0 <= k < |tokens| ==> ParseI32(tokens[k]).Some?
  {
    if tokens == [] then 0
    else Total(tokens[..|tokens| - 1]) + ParseI32(tokens[|tokens| - 1]).value
  }

  /** The `i32` accumulator of `sum` after adding every piece, from 0. */
  function WrappedTotal(tokens: seq<string>): (r: int)
    requires forall k :: 0 <= k < |tokens| ==> ParseI32(tokens[k]).Some?
    ensures I32_MIN <= r <= I32_MAX
  {
    if tokens == [] then 0
    else WrappingAdd(WrappedTotal(tokens[..|tokens| - 1]), ParseI32(tokens[|tokens| - 1]).value)
  }

  /** The accumulator holds the exact total reduced modulo 2^32 into the `i32` range. */
  lemma {:induction false} WrappedTotalIsWrapOfTotal(tokens: seq<string>)
    requires forall k :: 0 <= k < |tokens| ==> ParseI32(tokens[k]).Some?
    ensures WrappedTotal(tokens) == Wrap(Total(tokens))
  {
    if tokens != [] {
      var init := tokens[..|tokens| - 1];
      var v := ParseI32(tokens[|tokens| - 1]).value;
      WrappedTotalIsWrapOfTotal(init);
      WrappingAddIsWrap(WrappedTotal(init), v);
      WrapAdd(Total(init), v);
    }
  }

  /** What `sum` answers: the first piece that does not parse is reported, whatever follows
      it; otherwise the total, as an `i32`, in decimal. */
  function SumResult(s: string): string
  {
    var tokens := Split(s);
    match FirstInvalid(tokens)
    case Some(i) => "Invalid number '" + tokens[i] + "'"
    case None => I32ToString(WrappedTotal(tokens))
  }

  /** `sum`. */
  method Sum(s: string) returns (r: string)
    ensures r == SumResult(s)
  {
    var result: int := 0;
    var tokens := Split(s);
    for i := 0 to |tokens|
      invariant forall k :: 0 <= k < i ==> ParseI32(tokens[k]).Some?
      invariant result == WrappedTotal(tokens[..i])
    {
      var parsed := ParseI32(tokens[i]);
      if parsed.None? {
        SumResultInvalid(s, i);
        return "Invalid number '" + tokens[i] + "'";
      }
      TotalStep(tokens, i);
      result := WrappingAdd(result, parsed.value);
    }
    SumResultValid(s);
    assert tokens[..|tokens|] == tokens;
    r := I32ToString(result);
  }

  /** The first piece that does not parse is reported, whatever the later pieces are. */
  lemma SumResultInvalid(s: string, i: nat)
    requires i < |Split(s)| && ParseI32(Split(s)[i]).None?
    requires forall k :: 0 <= k < i ==> ParseI32(Split(s)[k]).Some?
    ensures SumResult(s) == "Invalid number '" + Split(s)[i] + "'"
  {
  }

  lemma SumResultValid(s: string)
    requires forall k :: 0 <= k < |Split(s)| ==> ParseI32(Split(s)[k]).Some?
    ensures SumResult(s) == I32ToString(WrappedTotal(Split(s)))
  {
  }

  lemma TotalStep(tokens: seq<string>, i: nat)
    requires i < |tokens| && forall k :: 0 <= k <= i ==> ParseI32(tokens[k]).Some?
    ensures WrappedTotal(tokens[..i + 1]) == WrappingAdd(WrappedTotal(tokens[..i]), ParseI32(tokens[i]).value)
  {
    assert tokens[..i + 1][..i] == tokens[..i];
  }

  /** When every piece parses, `sum` answers the decimal of the wrapped total, which
      parses back to that total. */
  lemma SumOfValidPieces(s: string)
    requires forall k :: 0 <= k < |Split(s)| ==> ParseI32(Split(s)[k]).Some?
    ensures SumResult(s) == I32ToString(Wrap(Total(Split(s))))
    ensures ParseI32(SumResult(s)) == Some(Wrap(Total(Split(s))))
  {
    WrappedTotalIsWrapOfTotal(Split(s));
    ParseOfToString(Wrap(Total(Split(s))));
  }

  /** Splitting at one space splits each side separately. */
  lemma {:induction false} SplitConcat(t: string, u: string)
    ensures Split(t + " " + u) == Split(t) + Split(u)
  {
    var s := t + " " + u;
    if t == [] {
      assert s == " " + u;
      assert s[1..] == u;
    } else {
      assert s[1..] == t[1..] + " " + u;
      SplitConcat(t[1..], u);
      var head := Split(t[1..]);
      if t[0] != ' ' {
        assert (head + Split(u))[0] == head[0];
        assert (head + Split(u))[1..] == head[1..] + Split(u);
      }
    }
  }

  /** The empty input, a leading space, and a double space after pieces that all parse
      give an empty piece, which does not parse and is the one reported. */
  lemma EmptyPieceIsInvalid(t: string, u: string)
    ensures SumResult("") == "Invalid number ''"
    ensures SumResult(" " + u) == "Invalid number ''"
    ensures (forall k :: 0 <= k < |Split(t)| ==> ParseI32(Split(t)[k]).Some?) ==>
              SumResult(t + "  " + u) == "Invalid number ''"
  {
    SplitConcat("", u);
    assert "" + " " + u == " " + u;
    SumResultInvalid(" " + u, 0);
    if forall k :: 0 <= k < |Split(t)| ==> ParseI32(Split(t)[k]).Some? {
      assert t + "  " + u == t + " " + (" " + u);
      SplitConcat(t, " " + u);
      var tokens := Split(t + "  " + u);
      assert tokens == Split(t) + ([""] + Split(u));
      assert tokens[|Split(t)|] == "";
      SumResultInvalid(t + "  " + u, |Split(t)|);
    }
  }

  /** The handler the adder's loop runs: "exit" answers "stopping emulator"; everything
      else goes to `sum`. */
  function AdderRespond(command: string): (r: string)
  {
    if command == EXIT then "stopping emulator" else SumResult(command)
  }

  /** "stopping emulator" is the answer to "exit" and to nothing else, since `sum` answers
      either with a decimal or with "Invalid number ...". */
  lemma AdderRespondExit(command: string)
    ensures AdderRespond(command) == "stopping emulator" <==> command == EXIT
  {
    var r := AdderRespond(command);
    if command != EXIT {
      assert r == SumResult(command);
      assert r[0] == 'I' || r[0] == '-' || IsDigit(r[0]);
    }
  }

  /** The adder's `serve`: an "exit" command is answered with "stopping emulator" and ends
      the loop, so it is the last command answered; a stop on "exit" had that answer
      written last; every other response is `sum`'s answer to its command. */
  lemma AdderServe(events: seq<Event>)
    ensures var f := Run(AdderRespond, events, 0, INITIAL);
      && (forall k :: 0 <= k < |f.attempts| && f.attempts[k].command == EXIT ==>
            && f.attempts[k].response == "stopping emulator"
            && k == |f.attempts| - 1 && f.stopped == Some(ExitCommand))
      && (f.stopped == Some(ExitCommand) ==>
            |f.attempts| > 0 && f.attempts[|f.attempts| - 1].response == "stopping emulator")
      && (forall a :: a in f.attempts && a.command != EXIT ==> a.response == SumResult(a.command))
  {
    ServeGuarantees(AdderRespond, events);
  }

  /** The values of one generated entry, joined by single spaces. */
  function EntryOf(values: seq<nat>): string
    requires |values| >= 1
  {
    Join(seq(|values|, k requires 0 <= k < |values| => NatToString(values[k])))
  }

  predicate ValidChoices(choices: seq<seq<nat>>)
  {
    && 1 <= |choices| <= 9
    && forall e :: 0 <= e < |choices| ==>
         1 <= |choices[e]| <= 4 && forall k :: 0 <= k < |choices[e]| ==> choices[e][k] <= 10
  }

  /** `generate_random_entries`, with the random draws as input: 1 to 9 entries, each of
      1 to 4 values in 0..=10. */
  method GenerateRandomEntries(choices: seq<seq<nat>>) returns (entries: seq<string>)
    requires ValidChoices(choices)
    ensures |entries| == |choices| + 2
    ensures forall e :: 0 <= e < |choices| ==> entries[e] == EntryOf(choices[e])
    ensures entries[|choices|] == "1 a" && entries[|choices| + 1] == EXIT
  {
    entries := [];
    for e := 0 to |choices|
      invariant |entries| == e
      invariant forall e' :: 0 <= e' < e ==> entries[e'] == EntryOf(choices[e'])
    {
      entries := entries + [EntryOf(choices[e])];
    }
    entries := entries + ["1 a"];
    entries := entries + [EXIT];
  }

  function SumOf(values: seq<nat>): nat
  {
    if values == [] then 0 else SumOf(values[..|values| - 1]) + values[|values| - 1]
  }

  lemma {:induction false} SumOfBound(values: seq<nat>)
    requires forall k :: 0 <= k < |values| ==> values[k] <= 10
    ensures SumOf(values) <= 10 * |values|
  {
    if values != [] {
      SumOfBound(values[..|values| - 1]);
    }
  }

  lemma {:induction false} TotalOfPrinted(values: seq<nat>, tokens: seq<string>)
    requires |tokens| == |values|
    requires forall k :: 0 <= k < |values| ==> values[k] <= 10 && tokens[k] == NatToString(values[k])
    ensures forall k :: 0 <= k < |tokens| ==> ParseI32(tokens[k]) == Some(values[k] as int)
    ensures Total(tokens) == SumOf(values)
  {
    forall k | 0 <= k < |tokens|
      ensures ParseI32(tokens[k]) == Some(values[k] as int)
    {
      ParseOfToString(values[k]);
    }
    if values != [] {
      var n := |values| - 1;
      assert tokens[..n][..] == tokens[..n];
      TotalOfPrinted(values[..n], tokens[..n]);
    }
  }

  /** Every generated entry but the last two is answered with the decimal of its sum; the
      invalid entry is answered with the error for "a"; the last entry is "exit". */
  lemma GeneratedEntriesAnswered(choices: seq<seq<nat>>, entries: seq<string>)
    requires ValidChoices(choices)
    requires |entries| == |choices| + 2
    requires forall e :: 0 <= e < |choices| ==> entries[e] == EntryOf(choices[e])
    requires entries[|choices|] == "1 a" && entries[|choices| + 1] == EXIT
    ensures forall e :: 0 <= e < |choices| ==> AdderRespond(entries[e]) == NatToString(SumOf(choices[e]))
    ensures AdderRespond(entries[|choices|]) == "Invalid number 'a'"
    ensures AdderRespond(entries[|choices| + 1]) == "stopping emulator"
  {
    forall e | 0 <= e < |choices|
      ensures AdderRespond(entries[e]) == NatToString(SumOf(choices[e]))
    {
      EntryAnswered(choices[e]);
    }
    OneAIsInvalid();
  }

  lemma EntryAnswered(values: seq<nat>)
    requires 1 <= |values| <= 4 && forall k :: 0 <= k < |values| ==> values[k] <= 10
    ensures AdderRespond(EntryOf(values)) == NatToString(SumOf(values))
  {
    var tokens := seq(|values|, k requires 0 <= k < |values| => NatToString(values[k]));
    assert EntryOf(values) == Join(tokens);
    EntrySplits(tokens);
    TotalOfPrinted(values, tokens);
    SumOfBound(values);
    assert FirstInvalid(tokens).None?;
    WrappedTotalIsWrapOfTotal(tokens);
    assert SumResult(Join(tokens)) == I32ToString(Wrap(SumOf(values)));
    EntryIsNotExit(tokens);
  }

  lemma EntrySplits(tokens: seq<string>)
    requires |tokens| >= 1 && forall k :: 0 <= k < |tokens| ==> tokens[k] != [] && AllDigits(tokens[k])
    ensures Split(Join(tokens)) == tokens
  {
    forall k | 0 <= k < |tokens|
      ensures ' ' !in tokens[k]
    {
      assert AllDigits(tokens[k]);
    }
    SplitJoin(tokens);
  }

  lemma EntryIsNotExit(tokens: seq<string>)
    requires |tokens| >= 1 && tokens[0] != [] && AllDigits(tokens[0])
    ensures Join(tokens) != EXIT
  {
  }

  lemma OneAIsInvalid()
    ensures AdderRespond("1 a") == "Invalid number 'a'"
  {
    SplitPieceThenSpace("1", "a");
    SplitNoSpace("a");
    var tokens := Split("1 a");
    assert tokens == ["1", "a"];
    assert ParseI32("1") == Some(1);
    assert ParseI32("a").None? by {
      assert !AllDigits("a");
    }
  }
}
