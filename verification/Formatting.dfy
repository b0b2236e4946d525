/** Formatted printing into a buffer of limited capacity. */
module Formatting {
  import opened Division
  import opened Numbers

  /** An argument: the bits of a number, or a string, or a null string. Reading one as the other kind
      gives 0 or the null text. */
  datatype Arg = Number(bits: Long) | Text(text: string) | Null

  type Args = nat -> Arg

  function Bits(a: Arg): Long { if a.Number? then a.bits else 0 }

  function IntArg(a: Arg): int { Wrap32(Bits(a)) }

  function LongArg(a: Arg): int {
    if Bits(a) < LONG / 2 then Bits(a) else Bits(a) - LONG
  }

  function UintArg(a: Arg): Long { Bits(a) % 0x1_0000_0000 }

  function TextArg(a: Arg): string { if a.Text? then a.text else "(null)" }

  function CharArg(a: Arg): char { (Bits(a) % 256) as char }

  // ----- directives -----

  /** What stands between '%' and the conversion letter. */
  datatype Spec = Spec(left: bool, pad: char, width: nat, long: bool)

  predicate IsAt(fmt: string, i: nat, c: char) {
    i < |fmt| && fmt[i] == c
  }

  predicate DigitAt(fmt: string, i: nat) {
    i < |fmt| && '0' <= fmt[i] <= '9'
  }

  ghost function WidthFrom(fmt: string, i: nat, w: nat): (r: (nat, nat))
    requires i <= |fmt|
    ensures i <= r.1 <= |fmt|
    decreases |fmt| - i
  {
    if DigitAt(fmt, i) then WidthFrom(fmt, i + 1, w * 10 + (fmt[i] as int - '0' as int)) else (w, i)
  }

  /** The directive that starts after a '%', and where its conversion letter is. */
  ghost function SpecAt(fmt: string, i: nat): (r: (Spec, nat))
    requires i <= |fmt|
    ensures i <= r.1 <= |fmt|
  {
    var left := IsAt(fmt, i, '-');
    var i1 := if left then i + 1 else i;
    var zero := IsAt(fmt, i1, '0');
    var i2 := if zero then i1 + 1 else i1;
    var w := WidthFrom(fmt, i2, 0);
    var l1 := IsAt(fmt, w.1, 'l');
    var l2 := l1 && IsAt(fmt, w.1 + 1, 'l');
    (Spec(left, if zero then '0' else ' ', w.0, l2), w.1 + (if l1 then 1 else 0) + (if l2 then 1 else 0))
  }

  /** Every directive has its conversion letter: the format does not break off inside one. */
  ghost predicate Complete(fmt: string, i: nat)
    decreases |fmt| - i
  {
    if i >= |fmt| then true
    else if fmt[i] != '%' then Complete(fmt, i + 1)
    else SpecAt(fmt, i + 1).1 < |fmt| && Complete(fmt, SpecAt(fmt, i + 1).1 + 1)
  }

  function Fill(n: int, c: char): (r: string) {
    seq(if n > 0 then n else 0, _ => c)
  }

  /** A field: the text filled up to the width on one side. */
  function Field(s: string, width: nat, left: bool, pad: char): string {
    if left then s + Fill(width - |s|, ' ') else Fill(width - |s|, pad) + s
  }

  ghost function NumberText(conv: char, long: bool, a: Arg): string {
    if conv == 'd' || conv == 'i' then SignedText(if long then LongArg(a) else IntArg(a))
    else Digits(if long then Bits(a) else UintArg(a), if conv == 'u' then 10 else 16, conv == 'X')
  }

  /** What one directive prints. */
  ghost function Output(sp: Spec, conv: char, a: Arg): string {
    if conv in {'d', 'i', 'u', 'x', 'X'} then Field(NumberText(conv, sp.long, a), sp.width, sp.left, sp.pad)
    else if conv == 's' then Field(TextArg(a), sp.width, sp.left, ' ')
    else if conv == 'c' then [CharArg(a)]
    else if conv == '%' then "%"
    else ['%', conv]
  }

  predicate TakesArg(conv: char) {
    conv in {'d', 'i', 'u', 'x', 'X', 's', 'c'}
  }

  /** The whole text a format stands for, without any limit, from position i and argument k on. */
  ghost function Render(fmt: string, i: nat, args: Args, k: nat): string
    decreases |fmt| - i
  {
    if i >= |fmt| then ""
    else if fmt[i] != '%' then [fmt[i]] + Render(fmt, i + 1, args, k)
    else
      var (sp, j) := SpecAt(fmt, i + 1);
      if j >= |fmt| then ""
      else Output(sp, fmt[j], args(k)) + Render(fmt, j + 1, args, if TakesArg(fmt[j]) then k + 1 else k)
  }

  /** A field is as wide as asked, or as its text if that is wider, with the text at one end of it. */
  lemma FieldMeaning(s: string, width: nat, left: bool, pad: char)
    ensures var f := Field(s, width, left, pad);
            && |f| == (if |s| < width then width else |s|)
            && (if left then f[..|s|] == s else f[|f| - |s|..] == s)
            && (forall i | 0 <= i < |f| && !(if left then i < |s| else i >= |f| - |s|) ::
                  f[i] == if left then ' ' else pad)
  {
  }

  // ----- what one directive prints, spelled out -----

  /** A directive: '%', flags, a width, a length modifier, the conversion letter. */
  function Directive(left: bool, zero: bool, ws: string, long: bool, conv: char): string {
    "%" + (if left then "-" else "") + (if zero then "0" else "") + ws + (if long then "ll" else "") + [conv]
  }

  lemma {:induction false} WidthRun(fmt: string, i: nat, ws: string, j: nat)
    requires i + |ws| < |fmt| && j <= |ws| && fmt[i..i + |ws|] == ws
    requires (forall k | 0 <= k < |ws| :: '0' <= ws[k] <= '9') && !('0' <= fmt[i + |ws|] <= '9')
    ensures WidthFrom(fmt, i + j, Value(ws[..j], 10)) == (Value(ws, 10), i + |ws|)
    decreases |ws| - j
  {
    hide Value;
    if j == |ws| {
      assert ws[..j] == ws;
    } else {
      assert fmt[i + j] == fmt[i..i + |ws|][j] == ws[j];
      ValueMeans(ws[..j], ws[j], 10);
      assert ws[..j] + [ws[j]] == ws[..j + 1];
      WidthRun(fmt, i, ws, j + 1);
    }
  }

  lemma FlagsRead(left: bool, zero: bool, rest: string)
    requires rest != "" && rest[0] != '-' && (zero || rest[0] != '0')
    ensures var head := "%" + (if left then "-" else "") + (if zero then "0" else "");
      var i1 := if left then 2 else 1;
      && IsAt(head + rest, 1, '-') == left && IsAt(head + rest, i1, '0') == zero
      && |head| == if zero then i1 + 1 else i1
  {
    var head := "%" + (if left then "-" else "") + (if zero then "0" else "");
    var i1 := if left then 2 else 1;
    AtShift(head, rest, 0, '-');
    AtShift(head, rest, 0, '0');
    assert left ==> head[1] == '-' && (head + rest)[1] == head[1];
    assert zero ==> head[i1] == '0' && (head + rest)[i1] == head[i1];
  }

  lemma TailRead(ws: string, long: bool, conv: char)
    requires conv != 'l'
    ensures var rest := ws + ((if long then "ll" else "") + [conv]);
      && IsAt(rest, |ws|, 'l') == long && (long ==> IsAt(rest, |ws| + 1, 'l'))
      && rest[|rest| - 1] == conv && |rest| == |ws| + (if long then 3 else 1)
      && rest[0..|ws|] == ws && rest[0] == (if ws == "" then if long then 'l' else conv else ws[0])
      && rest[|ws|] == (if long then 'l' else conv)
  {
    var tail := (if long then "ll" else "") + [conv];
    AtShift(ws, tail, 0, 'l');
    AtShift(ws, tail, 1, 'l');
  }

  lemma DirectiveSpec(left: bool, zero: bool, ws: string, long: bool, conv: char)
    requires (forall k | 0 <= k < |ws| :: '0' <= ws[k] <= '9') && (zero || ws == "" || ws[0] != '0')
    requires conv != 'l' && conv != '-' && !('0' <= conv <= '9')
    ensures var fmt := Directive(left, zero, ws, long, conv);
      && |fmt| > 1 && fmt[0] == '%' && fmt[|fmt| - 1] == conv
      && SpecAt(fmt, 1) == (Spec(left, if zero then '0' else ' ', Value(ws, 10), long), |fmt| - 1)
  {
    hide WidthFrom, Value, IsAt;
    var fmt := Directive(left, zero, ws, long, conv);
    var head := "%" + (if left then "-" else "") + (if zero then "0" else "");
    var rest := ws + ((if long then "ll" else "") + [conv]);
    assert fmt == head + rest;
    TailRead(ws, long, conv);
    FlagsRead(left, zero, rest);
    assert ws[..0] == "" && Value("", 10) == 0 by { ValueMeans("", '0', 10); }
    WidthRun(rest, 0, ws, 0);
    WidthShift(head, rest, 0, 0);
    AtShift(head, rest, |ws|, 'l');
    AtShift(head, rest, |ws| + 1, 'l');
  }

  /** A directive for a number: t is its numeral, without a leading zero, of the characters of its base, and of the
      argument's value, whole with ll and else modulo 2^32, for d and i in two's complement; t stands at one end
      of a field of the width asked for. */
  lemma NumberDirective(left: bool, zero: bool, ws: string, long: bool, conv: char, args: Args) returns (t: string)
    requires (forall k | 0 <= k < |ws| :: '0' <= ws[k] <= '9') && (zero || ws == "" || ws[0] != '0')
    requires conv in {'d', 'i', 'u', 'x', 'X'}
    ensures Complete(Directive(left, zero, ws, long, conv), 0)
    ensures IsNumeral(t, conv, long, args(0))
    ensures var f, w := Render(Directive(left, zero, ws, long, conv), 0, args, 0), Value(ws, 10);
      && |f| == (if |t| < w then w else |t|)
      && (if left then f[..|t|] == t else f[|f| - |t|..] == t)
      && (forall i | 0 <= i < |f| && (if left then i >= |t| else i < |f| - |t|) ::
            f[i] == if zero && !left then '0' else ' ')
  {
    DirectiveOutput(left, zero, ws, long, conv, args);
    t := NumberText(conv, long, args(0));
    NumberMeans(conv, long, args(0));
    hide Directive, Render, Complete, Value, Field, NumberText, IsNumeral;
    FieldMeaning(t, Value(ws, 10), left, if zero then '0' else ' ');
  }

  /** A string in its field, "(null)" for none. */
  lemma TextDirective(left: bool, zero: bool, ws: string, long: bool, args: Args)
    requires (forall k | 0 <= k < |ws| :: '0' <= ws[k] <= '9') && (zero || ws == "" || ws[0] != '0')
    ensures Complete(Directive(left, zero, ws, long, 's'), 0)
    ensures var f, w := Render(Directive(left, zero, ws, long, 's'), 0, args, 0), Value(ws, 10);
      var t := if args(0).Text? then args(0).text else "(null)";
      && |f| == (if |t| < w then w else |t|)
      && (if left then f[..|t|] == t else f[|f| - |t|..] == t)
      && (forall i | 0 <= i < |f| && (if left then i >= |t| else i < |f| - |t|) :: f[i] == ' ')
  {
    DirectiveOutput(left, zero, ws, long, 's', args);
    hide Directive, Render, Complete, Value, Field;
    FieldMeaning(TextArg(args(0)), Value(ws, 10), left, ' ');
  }

  /** A character, a percent sign, and a letter that is no conversion: flags and width count for nothing. */
  lemma PlainDirective(left: bool, zero: bool, ws: string, long: bool, conv: char, args: Args)
    requires (forall k | 0 <= k < |ws| :: '0' <= ws[k] <= '9') && (zero || ws == "" || ws[0] != '0')
    requires conv != 'l' && conv != '-' && !('0' <= conv <= '9') && conv !in {'d', 'i', 'u', 'x', 'X', 's'}
    ensures Complete(Directive(left, zero, ws, long, conv), 0)
    ensures Render(Directive(left, zero, ws, long, conv), 0, args, 0) ==
      if conv == 'c' then [((if args(0).Number? then args(0).bits else 0) % 256) as char]
      else if conv == '%' then "%"
      else ['%', conv]
  {
    DirectiveOutput(left, zero, ws, long, conv, args);
    hide Directive, Render, Complete, Value;
  }

  lemma DirectiveOutput(left: bool, zero: bool, ws: string, long: bool, conv: char, args: Args)
    requires (forall k | 0 <= k < |ws| :: '0' <= ws[k] <= '9') && (zero || ws == "" || ws[0] != '0')
    requires conv != 'l' && conv != '-' && !('0' <= conv <= '9')
    ensures var fmt := Directive(left, zero, ws, long, conv);
      Complete(fmt, 0) && Render(fmt, 0, args, 0)
                          == Output(Spec(left, if zero then '0' else ' ', Value(ws, 10), long), conv, args(0))
  {
    var fmt := Directive(left, zero, ws, long, conv);
    DirectiveSpec(left, zero, ws, long, conv);
    hide Directive, Value, SpecAt, Output;
    assert Complete(fmt, |fmt|);
    RenderAt(fmt, 0, args, 0);
    RenderAt(fmt, |fmt|, args, if TakesArg(conv) then 1 else 0);
    hide Render;
    var o := Output(SpecAt(fmt, 1).0, conv, args(0));
    assert o + "" == o;
  }

  /** Text without a percent sign is printed as it is. */
  lemma {:induction false} PlainText(fmt: string, i: nat, args: Args, k: nat)
    requires i <= |fmt| && '%' !in fmt
    ensures Complete(fmt, i) && Render(fmt, i, args, k) == fmt[i..]
    decreases |fmt| - i
  {
    if i < |fmt| {
      assert fmt[i] in fmt;
      PlainText(fmt, i + 1, args, k);
    }
  }

  /** "%u" of 512 is "512". */
  lemma Unsigned512(args: Args)
    requires args(0) == Number(512)
    ensures Complete("%u", 0) && Render("%u", 0, args, 0) == "512"
  {
    hide Render, Complete, Directive, Value, Digits, IsNumeral;
    PlainU();
    var t := NumberDirective(false, false, "", false, 'u', args);
    assert Value("", 10) == 0 by { ValueMeans("", '0', 10); }
    Numeral512(t, args(0));
  }

  lemma PlainU()
    ensures Directive(false, false, "", false, 'u') == "%u"
  {
  }

  lemma Numeral512(t: string, a: Arg)
    requires a == Number(512) && IsNumeral(t, 'u', false, a)
    ensures t == "512"
  {
    hide Value, Digits;
    NumeralUnique(t);
    DigitsOf512();
  }

  lemma DigitsOf512()
    ensures Digits(512, 10, false) == "512"
  {
    assert Digits(5, 10, false) == "5" && Digits(51, 10, false) == "51";
  }

  // ----- formats one after the other -----

  /** How many arguments a format takes. */
  ghost function ArgsUsed(fmt: string, i: nat): nat
    decreases |fmt| - i
  {
    if i >= |fmt| then 0
    else if fmt[i] != '%' then ArgsUsed(fmt, i + 1)
    else
      var j := SpecAt(fmt, i + 1).1;
      if j >= |fmt| then 0 else (if TakesArg(fmt[j]) then 1 else 0) + ArgsUsed(fmt, j + 1)
  }

  /** A directive that is complete reads the same with more format behind it. */
  lemma {:induction false} WidthLocal(f: string, g: string, i: nat, w: nat)
    requires i <= |f| && WidthFrom(f, i, w).1 < |f|
    ensures WidthFrom(f + g, i, w) == WidthFrom(f, i, w)
    decreases |f| - i
  {
    assert i < |f| ==> (f + g)[i] == f[i];
    if DigitAt(f, i) { WidthLocal(f, g, i + 1, w * 10 + (f[i] as int - '0' as int)); }
  }

  lemma SpecLocal(f: string, g: string, i: nat)
    requires i <= |f| && SpecAt(f, i).1 < |f|
    ensures SpecAt(f + g, i) == SpecAt(f, i)
  {
    hide WidthFrom;
    var i1 := if IsAt(f, i, '-') then i + 1 else i;
    var i2 := if IsAt(f, i1, '0') then i1 + 1 else i1;
    WidthLocal(f, g, i2, 0);
  }

  /** Read from a later position, a format is what stands from there on. */
  lemma {:induction false} WidthShift(f: string, g: string, i: nat, w: nat)
    requires i <= |g|
    ensures WidthFrom(f + g, |f| + i, w) == (WidthFrom(g, i, w).0, |f| + WidthFrom(g, i, w).1)
    decreases |g| - i
  {
    assert i < |g| ==> (f + g)[|f| + i] == g[i];
    if DigitAt(g, i) { WidthShift(f, g, i + 1, w * 10 + (g[i] as int - '0' as int)); }
  }

  lemma AtShift(f: string, g: string, i: nat, c: char)
    ensures IsAt(f + g, |f| + i, c) == IsAt(g, i, c)
  {
    assert i < |g| ==> (f + g)[|f| + i] == g[i];
  }

  lemma SpecShift(f: string, g: string, i: nat)
    requires i <= |g|
    ensures SpecAt(f + g, |f| + i) == (SpecAt(g, i).0, |f| + SpecAt(g, i).1)
  {
    hide IsAt, WidthFrom;
    AtShift(f, g, i, '-');
    var i1 := if IsAt(g, i, '-') then i + 1 else i;
    AtShift(f, g, i1, '0');
    AtInside(g, i, '-');
    AtInside(g, i1, '0');
    var i2 := if IsAt(g, i1, '0') then i1 + 1 else i1;
    WidthShift(f, g, i2, 0);
    AtShift(f, g, WidthFrom(g, i2, 0).1, 'l');
    AtShift(f, g, WidthFrom(g, i2, 0).1 + 1, 'l');
  }

  lemma AtInside(g: string, i: nat, c: char)
    ensures IsAt(g, i, c) ==> i < |g|
  {
  }

  /** One directive or character of a format. */
  lemma RenderAt(fmt: string, i: nat, args: Args, k: nat)
    ensures i >= |fmt| ==> Render(fmt, i, args, k) == ""
    ensures i < |fmt| && fmt[i] != '%' ==> Render(fmt, i, args, k) == [fmt[i]] + Render(fmt, i + 1, args, k)
    ensures i < |fmt| && fmt[i] == '%' ==>
      var (sp, j) := SpecAt(fmt, i + 1);
      Render(fmt, i, args, k) ==
        if j >= |fmt| then ""
        else Output(sp, fmt[j], args(k)) + Render(fmt, j + 1, args, if TakesArg(fmt[j]) then k + 1 else k)
  {
  }

  lemma {:induction false} RenderShift(f: string, g: string, i: nat, args: Args, k: nat)
    requires i <= |g|
    ensures Render(f + g, |f| + i, args, k) == Render(g, i, args, k)
    decreases |g| - i
  {
    hide SpecAt, Output, Render, TakesArg;
    RenderAt(f + g, |f| + i, args, k);
    RenderAt(g, i, args, k);
    if i < |g| {
      assert (f + g)[|f| + i] == g[i];
      if g[i] != '%' {
        RenderShift(f, g, i + 1, args, k);
      } else {
        SpecShift(f, g, i + 1);
        var j := SpecAt(g, i + 1).1;
        if j < |g| {
          assert (f + g)[|f| + j] == g[j];
          RenderShift(f, g, j + 1, args, if TakesArg(g[j]) then k + 1 else k);
        }
      }
    }
  }

  lemma ArgsAt(fmt: string, i: nat)
    requires i < |fmt| && Complete(fmt, i)
    ensures fmt[i] != '%' ==> Complete(fmt, i + 1) && ArgsUsed(fmt, i) == ArgsUsed(fmt, i + 1)
    ensures fmt[i] == '%' ==>
      var j := SpecAt(fmt, i + 1).1;
      && i < j < |fmt| && Complete(fmt, j + 1)
      && ArgsUsed(fmt, i) == (if TakesArg(fmt[j]) then 1 else 0) + ArgsUsed(fmt, j + 1)
  {
  }

  lemma Regroup(a: string, b: string, c: string)
    ensures a + (b + c) == a + b + c
  {
  }

  /** Formats compose: the text of two formats one after the other is the text of the first followed by
      the text of the second with the arguments that are left. */
  lemma {:induction false} RenderConcat(f: string, g: string, i: nat, args: Args, k: nat)
    requires i <= |f| && Complete(f, i)
    ensures Render(f + g, i, args, k) == Render(f, i, args, k) + Render(g, 0, args, k + ArgsUsed(f, i))
    decreases |f| - i
  {
    hide SpecAt, Output, Render, Complete, TakesArg;
    RenderAt(f + g, i, args, k);
    RenderAt(f, i, args, k);
    if i == |f| {
      RenderShift(f, g, 0, args, k);
    } else {
      ArgsAt(f, i);
      assert (f + g)[i] == f[i];
      hide ArgsUsed;
      if f[i] != '%' {
        RenderConcat(f, g, i + 1, args, k);
        Regroup([f[i]], Render(f, i + 1, args, k), Render(g, 0, args, k + ArgsUsed(f, i)));
      } else {
        SpecLocal(f, g, i + 1);
        var (sp, j) := SpecAt(f, i + 1);
        assert (f + g)[j] == f[j];
        var k2 := if TakesArg(f[j]) then k + 1 else k;
        RenderConcat(f, g, j + 1, args, k2);
        Regroup(Output(sp, f[j], args(k)), Render(f, j + 1, args, k2), Render(g, 0, args, k + ArgsUsed(f, i)));
      }
    }
  }

  // ----- the buffer -----

  /** So much of the text fits: its first cap characters stand in the buffer, and nothing else changed. */
  ghost predicate Holds(b: seq<char>, cap: nat, text: string, before: seq<char>) {
    && cap <= |b| == |before| && b[cap..] == before[cap..]
    && b[..Fits(text, cap)] == text[..Fits(text, cap)]
  }

  ghost function Fits(text: string, cap: nat): (n: nat)
    ensures n <= |text| && n <= cap
  {
    if |text| < cap then |text| else cap
  }

  method PutChar(buf: array<char>, pos: nat, cap: nat, c: char, ghost text: string, ghost before: seq<char>)
    returns (next: nat)
    requires pos == |text| && Holds(buf[..], cap, text, before)
    modifies buf
    ensures next == pos + 1 && Holds(buf[..], cap, text + [c], before)
  {
    if pos < cap { buf[pos] := c; }
    next := pos + 1;
  }

  method PutField(buf: array<char>, pos0: nat, cap: nat, s: string, width: nat, left: bool, pad: char,
                  ghost text: string, ghost before: seq<char>) returns (pos: nat)
    requires pos0 == |text| && Holds(buf[..], cap, text, before)
    modifies buf
    ensures pos == |text + Field(s, width, left, pad)| && Holds(buf[..], cap, text + Field(s, width, left, pad), before)
  {
    hide Holds;
    pos := pos0;
    var printed := 0;
    ghost var out := text;
    if !left {
      while printed < width - |s|
        invariant out == text + Fill(printed, pad) && pos == |out| && Holds(buf[..], cap, out, before)
        invariant 0 <= printed && (printed > 0 ==> printed <= width - |s|)
      {
        pos := PutChar(buf, pos, cap, pad, out, before);
        printed := printed + 1;
        out := out + [pad];
      }
      assert out == text + Fill(width - |s|, pad);
    }
    ghost var start := out;
    for i := 0 to |s|
      invariant out == start + s[..i] && pos == |out| && Holds(buf[..], cap, out, before)
    {
      pos := PutChar(buf, pos, cap, s[i], out, before);
      out := out + [s[i]];
    }
    printed := printed + |s|;
    assert out == start + s;
    if left {
      assert out == text + s;
      while printed < width
        invariant out == text + s + Fill(printed - |s|, ' ') && pos == |out| && Holds(buf[..], cap, out, before)
        invariant |s| <= printed && (printed > |s| ==> printed <= width)
      {
        pos := PutChar(buf, pos, cap, ' ', out, before);
        printed := printed + 1;
        out := out + [' '];
      }
      assert out == text + (s + Fill(width - |s|, ' '));
    } else {
      assert out == text + (Fill(width - |s|, pad) + s);
    }
  }

  // ----- the printer -----

  method ParseSpec(fmt: string, start: nat) returns (sp: Spec, f: nat)
    requires start <= |fmt|
    ensures (sp, f) == SpecAt(fmt, start)
  {
    f := start;
    var left, pad := false, ' ';
    if IsAt(fmt, f, '-') { left := true; f := f + 1; }
    if IsAt(fmt, f, '0') { pad := '0'; f := f + 1; }
    var width: nat := 0;
    ghost var w := WidthFrom(fmt, f, 0);
    while DigitAt(fmt, f)
      invariant f <= |fmt| && WidthFrom(fmt, f, width) == w
      decreases |fmt| - f
    {
      width := width * 10 + (fmt[f] as int - '0' as int);
      f := f + 1;
    }
    var long := false;
    if IsAt(fmt, f, 'l') {
      f := f + 1;
      if IsAt(fmt, f, 'l') { long := true; f := f + 1; }
    }
    sp := Spec(left, pad, width, long);
  }

  /** What a number looks like for each conversion letter: no leading zero, the characters of the base, and the
      argument's value, whole with ll and else modulo 2^32; for d and i in two's complement. */
  ghost predicate IsNumeral(s: string, conv: char, long: bool, a: Arg) {
    var bits := if a.Number? then a.bits else 0;
    var n := if long then bits else bits % 0x1_0000_0000;
    var top := if long then 0x8000_0000_0000_0000 else 0x8000_0000;
    && s != "" && (|s| > 1 ==> s[0] != '0')
    && (conv == 'u' || ((conv == 'd' || conv == 'i') && n < top) ==>
          Value(s, 10) == n && forall i | 0 <= i < |s| :: '0' <= s[i] <= '9')
    && ((conv == 'd' || conv == 'i') && n >= top ==>
          s[0] == '-' && Value(s[1..], 10) == 2 * top - n && |s| > 1 && s[1] != '0'
          && forall i | 1 <= i < |s| :: '0' <= s[i] <= '9')
    && (conv == 'x' ==> Value(s, 16) == n && forall i | 0 <= i < |s| :: '0' <= s[i] <= '9' || 'a' <= s[i] <= 'f')
    && (conv == 'X' ==> Value(s, 16) == n && forall i | 0 <= i < |s| :: '0' <= s[i] <= '9' || 'A' <= s[i] <= 'F')
  }

  lemma NumberMeans(conv: char, long: bool, a: Arg)
    requires conv in {'d', 'i', 'u', 'x', 'X'}
    ensures IsNumeral(NumberText(conv, long, a), conv, long, a)
  {
    hide Digits, Value;
    var bits := if a.Number? then a.bits else 0;
    var n := if long then bits else bits % 0x1_0000_0000;
    if conv == 'd' || conv == 'i' {
      var v := if long then LongArg(a) else IntArg(a);
      DigitsLook(if v < 0 then -v else v, 10, false);
      DigitsValue(if v < 0 then -v else v, 10, false);
    } else {
      var base := if conv == 'u' then 10 else 16;
      DigitsLook(n, base, conv == 'X');
      DigitsValue(n, base, conv == 'X');
    }
  }

  /** Print one number the way the conversion letter says. */
  method FormatNumber(conv: char, long: bool, a: Arg) returns (s: string)
    requires conv in {'d', 'i', 'u', 'x', 'X'}
    ensures s == NumberText(conv, long, a)
    ensures var bits := if a.Number? then a.bits else 0;
      var n := if long then bits else bits % 0x1_0000_0000;
      var top := if long then 0x8000_0000_0000_0000 else 0x8000_0000;
      && s != "" && (|s| > 1 ==> s[0] != '0')
      && (conv == 'u' || ((conv == 'd' || conv == 'i') && n < top) ==>
            Value(s, 10) == n && forall i | 0 <= i < |s| :: '0' <= s[i] <= '9')
      && ((conv == 'd' || conv == 'i') && n >= top ==>
            s[0] == '-' && Value(s[1..], 10) == 2 * top - n && |s| > 1 && s[1] != '0'
            && forall i | 1 <= i < |s| :: '0' <= s[i] <= '9')
      && (conv == 'x' ==> Value(s, 16) == n && forall i | 0 <= i < |s| :: '0' <= s[i] <= '9' || 'a' <= s[i] <= 'f')
      && (conv == 'X' ==> Value(s, 16) == n && forall i | 0 <= i < |s| :: '0' <= s[i] <= '9' || 'A' <= s[i] <= 'F')
  {
    hide NumberText, Value;
    var tmp := new char[TMP_SIZE];
    var len := NumberInto(tmp, conv, long, a);
    s := tmp[..len];
    NumberMeans(conv, long, a);
  }

  /** Into the buffer of 21 characters. */
  method NumberInto(tmp: array<char>, conv: char, long: bool, a: Arg) returns (len: nat)
    requires conv in {'d', 'i', 'u', 'x', 'X'} && tmp.Length == TMP_SIZE
    modifies tmp
    ensures len <= 20 && tmp[..len] == NumberText(conv, long, a)
  {
    hide Digits, SignedText;
    if conv == 'd' || conv == 'i' {
      if long { len := FmtSigned(tmp, 0, LongArg(a)); } else { len := FmtSigned(tmp, 0, IntArg(a)); }
    } else if conv == 'u' {
      if long { len := FmtUnsigned(tmp, 0, Bits(a), 10, false); }
      else { len := FmtUnsigned(tmp, 0, UintArg(a), 10, false); }
    } else if conv == 'x' {
      if long { len := FmtUnsigned(tmp, 0, Bits(a), 16, false); }
      else { len := FmtUnsigned(tmp, 0, UintArg(a), 16, false); }
    } else {
      if long { len := FmtUnsigned(tmp, 0, Bits(a), 16, true); }
      else { len := FmtUnsigned(tmp, 0, UintArg(a), 16, true); }
    }
    assert tmp[0..len] == tmp[..len];
  }

  method PutDirective(buf: array<char>, pos0: nat, cap: nat, sp: Spec, conv: char, a: Arg,
                      ghost text: string, ghost before: seq<char>) returns (pos: nat)
    requires pos0 == |text| && Holds(buf[..], cap, text, before)
    modifies buf
    ensures pos == |text + Output(sp, conv, a)| && Holds(buf[..], cap, text + Output(sp, conv, a), before)
  {
    hide Holds, Field, NumberText;
    if conv in {'d', 'i', 'u', 'x', 'X'} {
      var s := FormatNumber(conv, sp.long, a);
      pos := PutField(buf, pos0, cap, s, sp.width, sp.left, sp.pad, text, before);
    } else if conv == 's' {
      pos := PutField(buf, pos0, cap, TextArg(a), sp.width, sp.left, ' ', text, before);
    } else if conv == 'c' {
      pos := PutChar(buf, pos0, cap, CharArg(a), text, before);
    } else if conv == '%' {
      pos := PutChar(buf, pos0, cap, '%', text, before);
    } else {
      pos := PutChar(buf, pos0, cap, '%', text, before);
      pos := PutChar(buf, pos, cap, conv, text + ['%'], before);
      assert text + ['%'] + [conv] == text + ['%', conv];
    }
  }

  /** The buffer holds the text cut off after cap - 1 characters, and a terminator; beyond cap it is as before. */
  ghost predicate Written(b: seq<char>, cap: nat, full: string, before: seq<char>)
    requires cap > 0
  {
    var n := Fits(full, cap - 1);
    && cap <= |b| == |before| && b[cap..] == before[cap..]
    && b[..n] == full[..n] && b[n] == 0 as char
  }

  /** Formatted printing never writes outside the capacity, always terminates the string, and leaves exactly
      as much of the unlimited output as fits. The result counts the characters rendered, which is all of
      them unless the capacity was reached. */
  method VsPrintf(buf: array<char>, cap: int, fmt: string, args: Args) returns (pos: nat)
    requires cap <= buf.Length && Complete(fmt, 0)
    modifies buf
    ensures cap <= 0 ==> pos == 0 && buf[..] == old(buf[..])
    ensures cap > 0 ==> Written(buf[..], cap, Render(fmt, 0, args, 0), old(buf[..]))
    ensures cap > 0 ==> pos <= |Render(fmt, 0, args, 0)| && (pos < cap - 1 ==> pos == |Render(fmt, 0, args, 0)|)
  {
    hide Holds, Output, SpecAt, Complete, Render, Written, ArgsUsed, Fits, TakesArg;
    pos := 0;
    if cap <= 0 { return; }
    ghost var full, before := Render(fmt, 0, args, 0), buf[..];
    ghost var text := "";
    var f, k := 0, 0;
    HoldsNothing(buf[..], cap);
    while f < |fmt| && pos < cap - 1
      invariant f <= |fmt| && Complete(fmt, f)
      invariant pos == |text| && Holds(buf[..], cap, text, before)
      invariant full == text + Render(fmt, f, args, k)
      decreases |fmt| - f
    {
      RenderAt(fmt, f, args, k);
      ArgsAt(fmt, f);
      if fmt[f] != '%' {
        pos := PutChar(buf, pos, cap, fmt[f], text, before);
        text := text + [fmt[f]];
        f := f + 1;
      } else {
        var sp, j := ParseSpec(fmt, f + 1);
        var conv := fmt[j];
        pos := PutDirective(buf, pos, cap, sp, conv, args(k), text, before);
        ghost var rest := Render(fmt, j + 1, args, if TakesArg(conv) then k + 1 else k);
        assert text + (Output(sp, conv, args(k)) + rest) == (text + Output(sp, conv, args(k))) + rest;
        text := text + Output(sp, conv, args(k));
        if TakesArg(conv) { k := k + 1; }
        f := j + 1;
      }
    }
    RenderAt(fmt, f, args, k);
    Terminated(buf[..], cap, text, full, before);
    if pos < cap { buf[pos] := 0 as char; } else { buf[cap - 1] := 0 as char; }
  }

  lemma HoldsNothing(b: seq<char>, cap: nat)
    requires cap <= |b|
    ensures Holds(b, cap, "", b)
  {
  }

  /** Putting the terminator after the text, or at the last place when it is full. */
  lemma Terminated(b: seq<char>, cap: nat, text: string, full: string, before: seq<char>)
    requires cap > 0 && Holds(b, cap, text, before) && text <= full && (|text| < cap - 1 ==> text == full)
    ensures |b| >= cap
    ensures Written(b[(if |text| < cap then |text| else cap - 1) := 0 as char], cap, full, before)
  {
  }

  lemma OneNumber(a: Args)
    ensures Complete("%d", 0) && Render("%d", 0, a, 0) == SignedText(IntArg(a(0)))
  {
    assert SpecAt("%d", 1) == (Spec(false, ' ', 0, false), 1);
    assert Render("%d", 2, a, 1) == "";
    var s := SignedText(IntArg(a(0)));
    assert Field(s, 0, false, ' ') == s;
  }

  lemma IntOfBits(v: int)
    requires I32_MIN <= v <= I32_MAX
    ensures Wrap32(v % 0x1_0000_0000) == v
  {
  }

  /** Printing any 32-bit integer with %d into a buffer of 21 characters and parsing it gives it back. */
  method PrintAndParse(buf: array<char>, v: int) returns (r: int)
    requires I32_MIN <= v <= I32_MAX && buf.Length >= TMP_SIZE
    modifies buf
    ensures r == v
  {
    hide Render, Complete, SignedText, IntOf;
    var bits: Long := v % 0x1_0000_0000;
    var args: Args := k => Number(bits);
    OneNumber(args);
    IntOfBits(v);
    SignedLength(v);
    var len := VsPrintf(buf, TMP_SIZE, "%d", args);
    assert buf[..len] == SignedText(v);
    r := StrToInt(buf[..len]);
    IntRoundTrip(v);
  }
}
