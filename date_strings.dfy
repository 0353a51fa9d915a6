/**
 * The text-based date and time comparisons of the utility module: a
 * "dd/mm/yyyy" or "mm:hh" text is cut into integer fields at its separator,
 * missing fields count as 0, and the field lists of two texts are compared.
 * A field that is not an integer ends the process; here that is an outcome
 * naming the reason.
 */
module DateStrings {
  import opened Decimal
  import opened DateTime

  /** Why convert_to_int ends the process, in the order it checks. */
  datatype ConvertError = NoDigits | NotEntirelyRead | OutOfRange

  /** A value, or the process exit that replaces it. */
  datatype Outcome<T> = Ok(value: T) | Exits(reason: ConvertError)

  /** The range of a 64-bit long, which strtol reports overflow against. */
  const LongMin := -0x8000_0000_0000_0000
  const LongMax := 0x7FFF_FFFF_FFFF_FFFF

  /** The range of a 32-bit int. */
  const IntMin := -0x8000_0000
  const IntMax := 0x7FFF_FFFF

  predicate InInt(v: int) {
    IntMin <= v <= IntMax
  }

  /** The cast of a long to int: the value modulo 2^32, read as signed. */
  function ToInt32(v: int): (r: int)
    ensures InInt(r)
    ensures InInt(v) ==> r == v
  {
    var w := v % 0x1_0000_0000;
    if w <= IntMax then w else w - 0x1_0000_0000
  }

  function Sign(x: int): int {
    if x > 0 then 1 else if x < 0 then -1 else 0
  }

  /** The number of leading characters strtol takes as a sign. */
  function SignLength(t: string): (n: nat)
    ensures n <= |t| && n <= 1
  {
    if t != [] && (t[0] == '+' || t[0] == '-') then 1 else 0
  }

  /**
   * convert_to_int: strtol in base 10 (leading white space, an optional
   * sign, the longest run of digits), then the three checks: some digit was
   * read, the whole text was read, the value fits a long. The long is then
   * cast to int.
   */
  function ConvertToInt(s: string): (r: Outcome<int>)
    ensures r.Ok? ==> InInt(r.value)
    ensures r.Ok? ==> s != [] && exists k :: 0 <= k < |s| && IsDigit(s[k])
  {
    var t := SkipSpaces(s);
    var sign := SignLength(t);
    var u := t[sign..];
    var n := DigitRun(u, |u|);
    if n == 0 then Exits(NoDigits)
    else if n < |u| then Exits(NotEntirelyRead)
    else
      assert IsDigit(s[|s| - |u|]) by { assert s[|s| - |u|] == u[0] by { SkipSpacesSuffix(s); } }
      var magnitude: int := DigitsValue(u[..n]);
      var v: int := if sign == 1 && t[0] == '-' then -magnitude else magnitude;
      if v < LongMin || v > LongMax then Exits(OutOfRange) else Ok(ToInt32(v))
  }

  /** SkipSpaces leaves a suffix of its input. */
  lemma {:induction false} SkipSpacesSuffix(s: string)
    ensures SkipSpaces(s) == s[|s| - |SkipSpaces(s)|..]
  {
    if s != [] && IsSpace(s[0]) {
      SkipSpacesSuffix(s[1..]);
      assert s[1..][|s| - 1 - |SkipSpaces(s[1..])|..] == s[|s| - |SkipSpaces(s)|..];
    }
  }

  /** convert_to_int with the range checked against int rather than long,
      so that no value is cast. */
  function ConvertToIntFixed(s: string): (r: Outcome<int>)
    ensures r.Ok? ==> InInt(r.value)
    ensures ConvertToInt(s).Exits? ==> r == ConvertToInt(s)
  {
    var t := SkipSpaces(s);
    var sign := SignLength(t);
    var u := t[sign..];
    var n := DigitRun(u, |u|);
    if n == 0 then Exits(NoDigits)
    else if n < |u| then Exits(NotEntirelyRead)
    else
      var magnitude: int := DigitsValue(u[..n]);
      var v: int := if sign == 1 && t[0] == '-' then -magnitude else magnitude;
      if !InInt(v) then Exits(OutOfRange) else Ok(v)
  }

  /** The digits of a number: nothing to skip, no sign, all digits. */
  lemma DigitsParse(s: string)
    requires s != [] && AllDigits(s)
    ensures SkipSpaces(s) == s && SignLength(s) == 0 && DigitRun(s, |s|) == |s|
  {
    assert !IsSpace(s[0]) && IsDigit(s[0]);
    DigitRunAll(s, |s|);
  }

  /** A text of digits only is one digit run. */
  lemma DigitRunAll(s: string, width: nat)
    requires AllDigits(s) && width == |s|
    ensures DigitRun(s, width) == |s|
  {
  }

  /** What convert_to_int reads back from the decimal text of a number that
      fits a long: that number cast to int. */
  lemma ConvertNatToStr(m: nat)
    requires m <= LongMax
    ensures ConvertToInt(NatToStr(m)) == Ok(ToInt32(m))
    ensures ConvertToIntFixed(NatToStr(m)) == if InInt(m) then Ok(m) else Exits(OutOfRange)
  {
    var s := NatToStr(m);
    DigitsParse(s);
    assert s[0..] == s && s[..|s|] == s;
    DigitsValueOfNatToStr(m);
  }

  /** The text printf("%d") writes for an int reads back as that int. */
  lemma ConvertIntToStr(v: int)
    requires InInt(v)
    ensures ConvertToInt(IntToStr(v)) == Ok(v)
    ensures ConvertToIntFixed(IntToStr(v)) == Ok(v)
  {
    if v >= 0 {
      ConvertNatToStr(v);
    } else {
      var s := IntToStr(v);
      var digits := NatToStr(-v);
      assert s == "-" + digits;
      assert SkipSpaces(s) == s;
      assert SignLength(s) == 1 && s[1..] == digits;
      DigitsParse(digits);
      assert digits[..|digits|] == digits;
      DigitsValueOfNatToStr(-v);
    }
  }

  // What strtol reads, stated independently of the scan above: white space,
  // an optional sign and a run of digits.

  predicate AllSpaces(s: string) {
    forall i :: 0 <= i < |s| ==> IsSpace(s[i])
  }

  /** White space sp, a sign sg that is empty, "+" or "-", and at least one
      digit ds: a prefix strtol reads as a number. */
  predicate NumberText(sp: string, sg: string, ds: string) {
    AllSpaces(sp) && (sg == "" || sg == "+" || sg == "-") && ds != [] && AllDigits(ds)
  }

  /** The value strtol gives the digits under the sign. */
  function SignedValue(sg: string, ds: string): int
    requires AllDigits(ds)
  {
    var m: int := DigitsValue(ds);
    if sg == "-" then -m else m
  }

  predicate InLong(v: int) {
    LongMin <= v <= LongMax
  }

  /** A white-space directive skips exactly the leading white space. */
  lemma {:induction false} SkipSpacesPrefix(sp: string, w: string)
    requires AllSpaces(sp) && (w == [] || !IsSpace(w[0]))
    ensures SkipSpaces(sp + w) == w
    decreases |sp|
  {
    if sp == [] {
      assert sp + w == w;
    } else {
      assert (sp + w)[1..] == sp[1..] + w;
      SkipSpacesPrefix(sp[1..], w);
    }
  }

  /** What SkipSpaces skips is white space. */
  lemma {:induction false} SkipSpacesSkipsSpaces(s: string)
    ensures AllSpaces(s[..|s| - |SkipSpaces(s)|])
  {
    if s != [] && IsSpace(s[0]) {
      SkipSpacesSkipsSpaces(s[1..]);
      assert s[..|s| - |SkipSpaces(s)|] == [s[0]] + s[1..][..|s| - 1 - |SkipSpaces(s[1..])|];
    }
  }

  /** The digit run of digits followed by a non-digit, or by nothing, is
      exactly those digits. */
  lemma {:induction false} DigitRunOfParts(ds: string, rest: string)
    requires AllDigits(ds) && (rest == [] || !IsDigit(rest[0]))
    ensures DigitRun(ds + rest, |ds + rest|) == |ds|
  {
    if ds == [] {
      assert ds + rest == rest;
    } else {
      assert (ds + rest)[1..] == ds[1..] + rest;
      DigitRunOfParts(ds[1..], rest);
    }
  }

  /** After white space and a sign, convert_to_int's scan reaches the text
      that follows them, and takes the sign as strtol does. */
  lemma StrtolPrefix(sp: string, sg: string, w: string)
    requires AllSpaces(sp) && (sg == "" || sg == "+" || sg == "-") && w != [] && IsDigit(w[0])
    ensures var t := SkipSpaces(sp + sg + w);
      SignLength(t) == |sg| && t[|sg|..] == w && (SignLength(t) == 1 && t[0] == '-' <==> sg == "-")
  {
    var v := sg + w;
    assert sp + sg + w == sp + v;
    assert v[0] == if sg == "" then w[0] else sg[0];
    SkipSpacesPrefix(sp, v);
    assert v[|sg|..] == w;
  }

  /** convert_to_int on white space, a sign and the whole digit run, followed
      by the rest of the text. */
  lemma ConvertOfParts(sp: string, sg: string, ds: string, rest: string)
    requires NumberText(sp, sg, ds) && (rest == [] || !IsDigit(rest[0]))
    ensures ConvertToInt(sp + sg + ds + rest) ==
      if rest != [] then Exits(NotEntirelyRead)
      else if !InLong(SignedValue(sg, ds)) then Exits(OutOfRange)
      else Ok(ToInt32(SignedValue(sg, ds)))
    ensures ConvertToIntFixed(sp + sg + ds + rest) ==
      if rest != [] then Exits(NotEntirelyRead)
      else if !InInt(SignedValue(sg, ds)) then Exits(OutOfRange)
      else Ok(SignedValue(sg, ds))
  {
    assert sp + sg + ds + rest == sp + sg + (ds + rest);
    StrtolPrefix(sp, sg, ds + rest);
    DigitRunOfParts(ds, rest);
    assert (ds + rest)[..|ds|] == ds;
  }

  /** A digit right after the white space and the sign is read. */
  lemma ReadsDigit(sp: string, sg: string, w: string)
    requires AllSpaces(sp) && (sg == "" || sg == "+" || sg == "-") && w != [] && IsDigit(w[0])
    ensures ConvertToInt(sp + sg + w) != Exits(NoDigits)
  {
    StrtolPrefix(sp, sg, w);
  }

  /** A text is the concatenation of its four slices at i <= j <= k. */
  lemma SliceFour(s: string, i: nat, j: nat, k: nat)
    requires i <= j <= k <= |s|
    ensures s == s[..i] + s[i..j] + s[j..k] + s[k..]
  {
    assert s == s[..i] + s[i..];
    assert s[i..] == s[i..j] + s[j..k] + s[k..];
  }

  /** A text is the white space SkipSpaces skips followed by what it leaves. */
  lemma SkipSpacesSplit(s: string)
    ensures s == s[..|s| - |SkipSpaces(s)|] + SkipSpaces(s)
    ensures AllSpaces(s[..|s| - |SkipSpaces(s)|])
  {
    SkipSpacesSuffix(s);
    SkipSpacesSkipsSpaces(s);
  }

  /** A text is its first n characters followed by the others. */
  lemma SplitAt(u: string, n: nat)
    requires n <= |u|
    ensures u == u[..n] + u[n..]
  {
  }

  lemma ConcatFour(a: string, b: string, c: string, d: string)
    ensures a + (b + (c + d)) == a + b + c + d
  {
  }

  /** What strtol takes as a sign is empty, "+" or "-". */
  lemma SignText(t: string)
    ensures var sg := t[..SignLength(t)]; sg == "" || sg == "+" || sg == "-"
  {
    if SignLength(t) == 1 {
      assert t[..1] == [t[0]];
    }
  }

  /** s is white space, a sign, a whole digit run and a rest that does not
      start with a digit. */
  predicate SplitsAsNumber(s: string, sp: string, sg: string, ds: string, rest: string) {
    s == sp + sg + ds + rest && NumberText(sp, sg, ds) && (rest == [] || !IsDigit(rest[0]))
  }

  /** Where the scan of convert_to_int finds a digit, it has cut the text
      into white space, a sign, the whole digit run and a rest. */
  lemma ScanSplits(s: string, t: string, sign: nat, u: string, n: nat)
    returns (sp: string, sg: string, ds: string, rest: string)
    requires t == SkipSpaces(s) && sign == SignLength(t) && u == t[sign..]
    requires n == DigitRun(u, |u|) && n != 0
    ensures SplitsAsNumber(s, sp, sg, ds, rest)
  {
    SkipSpacesSplit(s);
    SignText(t);
    sp, sg, ds, rest := s[..|s| - |t|], t[..sign], u[..n], u[n..];
    SplitAt(t, sign);
    SplitAt(u, n);
    ConcatFour(sp, sg, ds, rest);
  }

  /** Every text on which convert_to_int reads a digit is white space, a sign,
      the whole digit run and a rest that does not start with a digit. */
  lemma ConvertParts(s: string) returns (sp: string, sg: string, ds: string, rest: string)
    ensures ConvertToInt(s) == Exits(NoDigits) || SplitsAsNumber(s, sp, sg, ds, rest)
  {
    var t := SkipSpaces(s);
    var sign := SignLength(t);
    var u := t[sign..];
    var n := DigitRun(u, |u|);
    sp, sg, ds, rest := "", "", "", "";
    if n != 0 {
      sp, sg, ds, rest := ScanSplits(s, t, sign, u, n);
    }
  }

  /**
   * convert_to_int for every text: it succeeds exactly on white space, an
   * optional sign and digits whose value fits a long, and returns that value
   * cast to int; it finds no digits exactly when none follows the white space
   * and the sign; it stops at a non-digit after the digits before it checks
   * the range.
   */
  lemma ConvertToIntIsStrtol(s: string)
    ensures ConvertToInt(s).Ok? <==>
      exists sp, sg, ds :: s == sp + sg + ds && NumberText(sp, sg, ds) && InLong(SignedValue(sg, ds))
    ensures forall sp, sg, ds :: s == sp + sg + ds && NumberText(sp, sg, ds) && InLong(SignedValue(sg, ds)) ==>
      ConvertToInt(s) == Ok(ToInt32(SignedValue(sg, ds)))
    ensures ConvertToInt(s) == Exits(NoDigits) <==>
      !exists sp, sg, ds, rest :: s == sp + sg + ds + rest && NumberText(sp, sg, ds)
    ensures ConvertToInt(s) == Exits(NotEntirelyRead) <==>
      exists sp, sg, ds, rest :: s == sp + sg + ds + rest && NumberText(sp, sg, ds) && rest != [] && !IsDigit(rest[0])
    ensures ConvertToInt(s) == Exits(OutOfRange) <==>
      exists sp, sg, ds :: s == sp + sg + ds && NumberText(sp, sg, ds) && !InLong(SignedValue(sg, ds))
  {
    forall sp, sg, ds | s == sp + sg + ds && NumberText(sp, sg, ds)
      ensures ConvertToInt(s) == if InLong(SignedValue(sg, ds)) then Ok(ToInt32(SignedValue(sg, ds))) else Exits(OutOfRange)
    {
      assert s == sp + sg + ds + [];
      ConvertOfParts(sp, sg, ds, []);
    }
    forall sp, sg, ds, rest | s == sp + sg + ds + rest && NumberText(sp, sg, ds)
      ensures ConvertToInt(s) != Exits(NoDigits)
    {
      assert s == sp + sg + (ds + rest);
      ReadsDigit(sp, sg, ds + rest);
    }
    forall sp, sg, ds, rest | s == sp + sg + ds + rest && NumberText(sp, sg, ds) && rest != [] && !IsDigit(rest[0])
      ensures ConvertToInt(s) == Exits(NotEntirelyRead)
    {
      ConvertOfParts(sp, sg, ds, rest);
    }
    if ConvertToInt(s) != Exits(NoDigits) {
      var sp, sg, ds, rest := ConvertParts(s);
      ConvertOfParts(sp, sg, ds, rest);
      if rest == [] {
        assert s == sp + sg + ds;
      }
    }
  }

  /** The corrected conversion succeeds exactly on white space, an optional
      sign and digits whose value fits an int, and returns that value. */
  lemma ConvertToIntFixedIsStrtol(s: string)
    ensures ConvertToIntFixed(s).Ok? <==>
      exists sp, sg, ds :: s == sp + sg + ds && NumberText(sp, sg, ds) && InInt(SignedValue(sg, ds))
    ensures forall sp, sg, ds :: s == sp + sg + ds && NumberText(sp, sg, ds) && InInt(SignedValue(sg, ds)) ==>
      ConvertToIntFixed(s) == Ok(SignedValue(sg, ds))
  {
    forall sp, sg, ds | s == sp + sg + ds && NumberText(sp, sg, ds)
      ensures ConvertToIntFixed(s) == if InInt(SignedValue(sg, ds)) then Ok(SignedValue(sg, ds)) else Exits(OutOfRange)
    {
      assert s == sp + sg + ds + [];
      ConvertOfParts(sp, sg, ds, []);
    }
    if ConvertToIntFixed(s).Ok? {
      var sp, sg, ds, rest := ConvertParts(s);
      ConvertOfParts(sp, sg, ds, rest);
      assert s == sp + sg + ds;
    }
  }

  /** The decimal text of a number above the int range and below 2^32
      (3000000000, say) passes every check of convert_to_int and is cast to
      a negative int. */
  lemma ConvertWrapsCounterexample(m: nat)
    requires IntMax < m < 0x1_0000_0000
    ensures ConvertToInt(NatToStr(m)) == Ok(m - 0x1_0000_0000)
    ensures m - 0x1_0000_0000 < 0
    ensures ConvertToIntFixed(NatToStr(m)) == Exits(OutOfRange)
  {
    ConvertNatToStr(m);
    assert m == 0 * 0x1_0000_0000 + m;
  }

  /** The fixed conversion reads an int's text back exactly and rejects
      every other number's text. */
  lemma ConvertFixedIsExact(m: nat)
    requires m <= LongMax
    ensures ConvertToIntFixed(NatToStr(m)).Ok? <==> InInt(m)
    ensures ConvertToIntFixed(NatToStr(m)).Ok? ==> ConvertToIntFixed(NatToStr(m)).value == m
  {
    ConvertNatToStr(m);
  }

  // Splitting at a separator, as repeated strtok calls do.

  /** The length of the leading run of characters other than d. */
  function RunUntil(s: string, d: char): (n: nat)
    requires s != [] && s[0] != d
    ensures 1 <= n <= |s| && d !in s[..n]
    ensures n < |s| ==> s[n] == d
  {
    if |s| == 1 || s[1] == d then 1
    else
      var n := 1 + RunUntil(s[1..], d);
      assert s[..n] == [s[0]] + s[1..][..n - 1];
      n
  }

  /** The tokens strtok returns: the maximal runs without d, so that empty
      pieces between separators are skipped. */
  function Tokens(s: string, d: char): (ts: seq<string>)
    ensures forall t :: t in ts ==> t != [] && d !in t
    decreases |s|
  {
    if s == [] then []
    else if s[0] == d then Tokens(s[1..], d)
    else
      var n := RunUntil(s, d);
      [s[..n]] + Tokens(s[n..], d)
  }

  /** The pieces written one after another with d between them. */
  function JoinWith(ts: seq<string>, d: char): string {
    if ts == [] then []
    else if |ts| == 1 then ts[0]
    else ts[0] + [d] + JoinWith(ts[1..], d)
  }

  /** A token followed by a separator or by nothing is read as one run. */
  lemma {:induction false} RunUntilToken(t: string, rest: string, d: char)
    requires t != [] && d !in t && (rest == [] || rest[0] == d)
    ensures RunUntil(t + rest, d) == |t|
    decreases |t|
  {
    var s := t + rest;
    assert s[0] == t[0] && t[0] in t;
    if |t| == 1 {
      assert |s| > 1 ==> s[1] == rest[0];
    } else {
      assert s[1] == t[1] && t[1] in t;
      assert s[1..] == t[1..] + rest;
      assert forall c :: c in t[1..] ==> c in t;
      RunUntilToken(t[1..], rest, d);
    }
  }

  /** Splitting undoes joining, for pieces that strtok can return. */
  lemma {:induction false} TokensJoinWith(ts: seq<string>, d: char)
    requires forall t :: t in ts ==> t != [] && d !in t
    ensures Tokens(JoinWith(ts, d), d) == ts
  {
    if ts == [] {
    } else if |ts| == 1 {
      var t := ts[0];
      assert t in ts;
      assert t[0] != d by { assert t[0] in t; }
      RunUntilToken(t, [], d);
      assert t + [] == t && t[..|t|] == t && t[|t|..] == [];
    } else {
      var t, rest := ts[0], JoinWith(ts[1..], d);
      var s := t + [d] + rest;
      assert t in ts;
      assert t[0] != d by { assert t[0] in t; }
      assert s == t + ([d] + rest) && s[0] == t[0];
      RunUntilToken(t, [d] + rest, d);
      assert s[..|t|] == t;
      assert s[|t|..] == [d] + rest && ([d] + rest)[1..] == rest;
      assert forall u :: u in ts[1..] ==> u in ts;
      TokensJoinWith(ts[1..], d);
      assert ts == [t] + ts[1..];
    }
  }

  // Converting the fields.

  /** The fields converted in order; the first failure ends the process. */
  function ConvertAll(ts: seq<string>): (r: Outcome<seq<int>>)
    ensures r.Ok? ==> |r.value| == |ts|
    ensures r.Ok? ==> forall k :: 0 <= k < |ts| ==> ConvertToInt(ts[k]) == Ok(r.value[k])
  {
    if ts == [] then Ok([])
    else match ConvertToInt(ts[0])
      case Exits(e) => Exits(e)
      case Ok(v) =>
        match ConvertAll(ts[1..])
        case Exits(e) => Exits(e)
        case Ok(vs) =>
          assert forall k :: 1 <= k < |ts| ==> ts[k] == ts[1..][k - 1];
          Ok([v] + vs)
  }

  /** The fields of an int array of size n: the converted ones, then the
      zeros it was initialised with. */
  function Pad(fs: seq<int>, n: nat): (r: seq<int>)
    requires |fs| <= n
    ensures |r| == n && r[..|fs|] == fs
    ensures forall k :: |fs| <= k < n ==> r[k] == 0
  {
    fs + seq(n - |fs|, _ => 0)
  }

  // The comparison loop.

  /** One iteration of the loop at index i: a greater field sets 1, a smaller
      one -1, and equal first fields set 0; there is no break. */
  function Step(x: int, y: int, i: int, acc: int): int {
    var a1 := if x > y then 1 else acc;
    var a2 := if x < y then -1 else a1;
    if x == y && i == 0 then 0 else a2
  }

  /** The iterations from index i down to 0, starting from acc. */
  function LoopFrom(one: seq<int>, two: seq<int>, i: int, acc: int): int
    requires -1 <= i < |one| == |two|
    decreases i + 1
  {
    if i < 0 then acc else LoopFrom(one, two, i - 1, Step(one[i], two[i], i, acc))
  }

  /** The loop of compare_date and compare_time, from the last field down,
      starting from -2. */
  function CompareFieldsAsWritten(one: seq<int>, two: seq<int>): int
    requires 1 <= |one| == |two|
  {
    LoopFrom(one, two, |one| - 1, -2)
  }

  /** Every iteration overwrites the result, so the last one, on the first
      field, decides it. */
  lemma {:induction false} LoopDecidedByFirst(one: seq<int>, two: seq<int>, i: int, acc: int)
    requires 0 <= i < |one| == |two|
    ensures LoopFrom(one, two, i, acc) == Sign(one[0] - two[0])
    decreases i
  {
    if i > 0 {
      LoopDecidedByFirst(one, two, i - 1, Step(one[i], two[i], i, acc));
    }
  }

  /** The comparison as written: the sign of the difference of the first
      fields, whatever the others hold. */
  lemma CompareFieldsAsWrittenIsFirstField(one: seq<int>, two: seq<int>)
    requires 1 <= |one| == |two|
    ensures CompareFieldsAsWritten(one, two) == Sign(one[0] - two[0])
  {
    LoopDecidedByFirst(one, two, |one| - 1, -2);
  }

  /** The fields from the last to the first: most significant first. */
  function Reverse(fs: seq<int>): (r: seq<int>)
    ensures |r| == |fs| && forall k :: 0 <= k < |fs| ==> r[k] == fs[|fs| - 1 - k]
  {
    if fs == [] then [] else Reverse(fs[1..]) + [fs[0]]
  }

  /** Padding a full set of fields adds nothing. */
  lemma PadFull(fs: seq<int>)
    ensures Pad(fs, |fs|) == fs
  {
  }

  /** Three fields listed backwards. */
  lemma ReverseThree(a: int, b: int, c: int)
    ensures Reverse([a, b, c]) == [c, b, a]
  {
    assert [a, b, c][1..] == [b, c];
    assert [b, c][1..] == [c];
  }

  /** Two fields listed backwards. */
  lemma ReverseTwo(a: int, b: int)
    ensures Reverse([a, b]) == [b, a]
  {
    assert [a, b][1..] == [b];
  }

  /** A text with between one and n fields at separator d. */
  predicate WellSplit(s: string, d: char, n: nat) {
    1 <= |Tokens(s, d)| <= n
  }

  /** Both texts converted, padded to n fields and compared by `compare`. */
  function CompareText(a: string, b: string, d: char, n: nat, fixed: bool): (r: Outcome<int>)
    requires WellSplit(a, d, n) && WellSplit(b, d, n)
    ensures r.Ok? ==> r.value == -1 || r.value == 0 || r.value == 1
  {
    match ConvertAll(Tokens(a, d))
    case Exits(e) => Exits(e)
    case Ok(fa) =>
      match ConvertAll(Tokens(b, d))
      case Exits(e) => Exits(e)
      case Ok(fb) =>
        var one, two := Pad(fa, n), Pad(fb, n);
        if fixed then Ok(CompareFields(Reverse(one), Reverse(two)))
        else
          CompareFieldsAsWrittenIsFirstField(one, two);
          Ok(CompareFieldsAsWritten(one, two))
  }

  /** CompareText on two texts whose fields are known and complete. */
  lemma CompareTextOfFields(a: string, b: string, d: char, n: nat, fa: seq<int>, fb: seq<int>)
    requires WellSplit(a, d, n) && WellSplit(b, d, n) && |fa| == |fb| == n
    requires ConvertAll(Tokens(a, d)) == Ok(fa) && ConvertAll(Tokens(b, d)) == Ok(fb)
    ensures CompareText(a, b, d, n, true) == Ok(CompareFields(Reverse(fa), Reverse(fb)))
    ensures CompareText(a, b, d, n, false) == Ok(CompareFieldsAsWritten(fa, fb))
  {
    PadFull(fa);
    PadFull(fb);
  }

  /** compare_date: day, month and year fields at '/'. */
  function CompareDateStr(a: string, b: string): (r: Outcome<int>)
    requires WellSplit(a, '/', 3) && WellSplit(b, '/', 3)
    ensures r.Ok? ==> r.value == -1 || r.value == 0 || r.value == 1
  {
    CompareText(a, b, '/', 3, false)
  }

  /** compare_time: minute and hour fields at ':'. */
  function CompareTimeStr(a: string, b: string): (r: Outcome<int>)
    requires WellSplit(a, ':', 2) && WellSplit(b, ':', 2)
    ensures r.Ok? ==> r.value == -1 || r.value == 0 || r.value == 1
  {
    CompareText(a, b, ':', 2, false)
  }

  /** compare_date deciding by year, then month, then day. */
  function CompareDateStrFixed(a: string, b: string): (r: Outcome<int>)
    requires WellSplit(a, '/', 3) && WellSplit(b, '/', 3)
    ensures r.Ok? ==> r.value == -1 || r.value == 0 || r.value == 1
    ensures r.Exits? <==> CompareDateStr(a, b).Exits?
  {
    CompareText(a, b, '/', 3, true)
  }

  /** compare_time deciding by hour, then minute. */
  function CompareTimeStrFixed(a: string, b: string): (r: Outcome<int>)
    requires WellSplit(a, ':', 2) && WellSplit(b, ':', 2)
    ensures r.Ok? ==> r.value == -1 || r.value == 0 || r.value == 1
    ensures r.Exits? <==> CompareTimeStr(a, b).Exits?
  {
    CompareText(a, b, ':', 2, true)
  }

  // Texts of datetime values, and what the comparisons make of them.

  /** "d/m/y" as printf("%d/%d/%d") writes it. */
  function DateText(x: DateTime): string {
    JoinWith([IntToStr(x.day), IntToStr(x.month), IntToStr(x.year)], '/')
  }

  /** "m:h", minute first, as the time part of the saved datetime. */
  function TimeText(x: DateTime): string {
    JoinWith([IntToStr(x.minute), IntToStr(x.hour)], ':')
  }

  predicate DateFits(x: DateTime) {
    InInt(x.day) && InInt(x.month) && InInt(x.year)
  }

  predicate TimeFits(x: DateTime) {
    InInt(x.minute) && InInt(x.hour)
  }

  /** The decimal text of a number never holds a separator. */
  lemma IntToStrHasNoSeparator(v: int, d: char)
    requires d == '/' || d == ':'
    ensures IntToStr(v) != [] && d !in IntToStr(v)
  {
    var s := IntToStr(v);
    forall k | 0 <= k < |s|
      ensures s[k] != d
    {
      if v >= 0 {
        assert IsDigit(s[k]);
      } else if k > 0 {
        assert IsDigit(s[1..][k - 1]);
      }
    }
  }

  /** The decimal texts of the numbers, in order. */
  function Texts(vs: seq<int>): (ts: seq<string>)
    ensures |ts| == |vs| && forall k :: 0 <= k < |vs| ==> ts[k] == IntToStr(vs[k])
  {
    if vs == [] then [] else [IntToStr(vs[0])] + Texts(vs[1..])
  }

  /** The fields read back from the text of numbers joined at a separator
      are those numbers. */
  lemma FieldsOfText(vs: seq<int>, d: char)
    requires d == '/' || d == ':'
    requires forall k :: 0 <= k < |vs| ==> InInt(vs[k])
    ensures Tokens(JoinWith(Texts(vs), d), d) == Texts(vs) && ConvertAll(Texts(vs)) == Ok(vs)
  {
    var ts := Texts(vs);
    forall t | t in ts
      ensures t != [] && d !in t
    {
      var k :| 0 <= k < |ts| && ts[k] == t;
      IntToStrHasNoSeparator(vs[k], d);
    }
    TokensJoinWith(ts, d);
    ConvertAllOfTexts(vs);
  }

  lemma {:induction false} ConvertAllOfTexts(vs: seq<int>)
    requires forall k :: 0 <= k < |vs| ==> InInt(vs[k])
    ensures ConvertAll(Texts(vs)) == Ok(vs)
  {
    if vs != [] {
      var ts := Texts(vs);
      assert ts[1..] == Texts(vs[1..]);
      ConvertIntToStr(vs[0]);
      ConvertAllOfTexts(vs[1..]);
      assert ConvertAll(ts) == Ok([vs[0]] + vs[1..]);
      assert [vs[0]] + vs[1..] == vs;
    }
  }

  lemma DateTextFields(x: DateTime)
    requires DateFits(x)
    ensures Tokens(DateText(x), '/') == [IntToStr(x.day), IntToStr(x.month), IntToStr(x.year)]
    ensures ConvertAll(Tokens(DateText(x), '/')) == Ok([x.day, x.month, x.year])
  {
    var vs := [x.day, x.month, x.year];
    FieldsOfText(vs, '/');
    assert Texts(vs) == [IntToStr(x.day), IntToStr(x.month), IntToStr(x.year)];
  }

  lemma TimeTextFields(x: DateTime)
    requires TimeFits(x)
    ensures Tokens(TimeText(x), ':') == [IntToStr(x.minute), IntToStr(x.hour)]
    ensures ConvertAll(Tokens(TimeText(x), ':')) == Ok([x.minute, x.hour])
  {
    var vs := [x.minute, x.hour];
    FieldsOfText(vs, ':');
    assert Texts(vs) == [IntToStr(x.minute), IntToStr(x.hour)];
  }

  /** On the texts of two dates, compare_date as written answers by the
      day alone. */
  lemma CompareDateStrIsByDay(x: DateTime, y: DateTime)
    requires DateFits(x) && DateFits(y)
    ensures WellSplit(DateText(x), '/', 3) && WellSplit(DateText(y), '/', 3)
    ensures CompareDateStr(DateText(x), DateText(y)) == Ok(Sign(x.day - y.day))
  {
    DateTextFields(x);
    DateTextFields(y);
    var one, two := [x.day, x.month, x.year], [y.day, y.month, y.year];
    CompareTextOfFields(DateText(x), DateText(y), '/', 3, one, two);
    CompareFieldsAsWrittenIsFirstField(one, two);
  }

  /** On the texts of two times, compare_time as written answers by the
      minute alone. */
  lemma CompareTimeStrIsByMinute(x: DateTime, y: DateTime)
    requires TimeFits(x) && TimeFits(y)
    ensures WellSplit(TimeText(x), ':', 2) && WellSplit(TimeText(y), ':', 2)
    ensures CompareTimeStr(TimeText(x), TimeText(y)) == Ok(Sign(x.minute - y.minute))
  {
    TimeTextFields(x);
    TimeTextFields(y);
    var one, two := [x.minute, x.hour], [y.minute, y.hour];
    CompareTextOfFields(TimeText(x), TimeText(y), ':', 2, one, two);
    CompareFieldsAsWrittenIsFirstField(one, two);
  }

  /** 2 January 2020 is before 1 January 2021, yet compare_date answers 1. */
  lemma CompareDateStrCounterexample()
    ensures var x, y := DateTime(0, 0, 2, 1, 2020), DateTime(0, 0, 1, 1, 2021);
      DateBefore(x, y) && WellSplit(DateText(x), '/', 3) && WellSplit(DateText(y), '/', 3)
      && CompareDateStr(DateText(x), DateText(y)) == Ok(1)
  {
    CompareDateStrIsByDay(DateTime(0, 0, 2, 1, 2020), DateTime(0, 0, 1, 1, 2021));
  }

  /** Five past ten is after twelve past nine, yet compare_time answers
      -1. */
  lemma CompareTimeStrCounterexample()
    ensures var x, y := DateTime(5, 10, 1, 1, 2024), DateTime(12, 9, 1, 1, 2024);
      TimeBefore(y, x) && WellSplit(TimeText(x), ':', 2) && WellSplit(TimeText(y), ':', 2)
      && CompareTimeStr(TimeText(x), TimeText(y)) == Ok(-1)
  {
    CompareTimeStrIsByMinute(DateTime(5, 10, 1, 1, 2024), DateTime(12, 9, 1, 1, 2024));
  }

  /** The fixed compare_date agrees with the datetime comparison on the
      texts of two dates. */
  lemma CompareDateStrFixedAgrees(x: DateTime, y: DateTime)
    requires DateFits(x) && DateFits(y)
    ensures WellSplit(DateText(x), '/', 3) && WellSplit(DateText(y), '/', 3)
    ensures CompareDateStrFixed(DateText(x), DateText(y)) == Ok(CompareDate(x, y))
  {
    DateTextFields(x);
    DateTextFields(y);
    var one, two := [x.day, x.month, x.year], [y.day, y.month, y.year];
    CompareTextOfFields(DateText(x), DateText(y), '/', 3, one, two);
    ReverseThree(x.day, x.month, x.year);
    ReverseThree(y.day, y.month, y.year);
  }

  /** The fixed compare_time agrees with the datetime comparison on the
      texts of two times. */
  lemma CompareTimeStrFixedAgrees(x: DateTime, y: DateTime)
    requires TimeFits(x) && TimeFits(y)
    ensures WellSplit(TimeText(x), ':', 2) && WellSplit(TimeText(y), ':', 2)
    ensures CompareTimeStrFixed(TimeText(x), TimeText(y)) == Ok(CompareTime(x, y))
  {
    TimeTextFields(x);
    TimeTextFields(y);
    var one, two := [x.minute, x.hour], [y.minute, y.hour];
    CompareTextOfFields(TimeText(x), TimeText(y), ':', 2, one, two);
    ReverseTwo(x.minute, x.hour);
    ReverseTwo(y.minute, y.hour);
  }
}
