/**
 Kernel registrations written out in any of the six macro forms, with arbitrary white space and
 line breaks between the macro's opening parenthesis and the arguments, are recovered by the
 parser of tools/ci_build/op_registration_utils.py.
 */
module RegistrationPrinting {
  import opened Text
  import opened Wrappers
  import opened RegistrationParser

  // ---------------------------------------------------------------- written registrations

  /** The macro form, the provider, and the arguments, of which a form uses those it has. */
  datatype Written = Written(form: Form, provider: string, domain: string, operator: string, start: nat, end: nat,
                             type1: string, type2: string)

  function Types(w: Written): seq<string> {
    match w.form
    case Plain | Versioned => []
    case Typed | VersionedTyped => [w.type1]
    case TwoTyped | VersionedTwoTyped => [w.type1, w.type2]
  }

  function Args(w: Written): (args: seq<string>)
    ensures |args| >= 4
  {
    [w.provider, w.domain, Decimal(w.start)] + (if HasEnd(w.form) then [Decimal(w.end)] else []) + Types(w) + [w.operator]
  }

  /** What the processor should be told. */
  function InfoOf(w: Written): Info {
    Info(w.domain, w.operator, w.start, if HasEnd(w.form) then Some(w.end as int) else None,
         if |Types(w)| == 0 then None
         else if |Types(w)| == 1 then Some(w.type1)
         else Some(w.type1 + ", " + w.type2))
  }

  ghost predicate Occurs(s: string, needle: string, p: int) {
    0 <= p && p + |needle| <= |s| && s[p..p + |needle|] == needle
  }

  ghost predicate NoMacro(s: string) {
    forall form, p :: !Occurs(s, Macro(form), p)
  }

  /** Text that can stand as a macro argument: trimmed, no comma, no macro name, and with a comma no end mark. */
  ghost predicate IsArgument(s: string) {
    s != "" && Trimmed(s) && Free(s, ',') && NoMacro(s) && s != ">" && !EndsWith(s, ")>")
  }

  ghost predicate IsWritten(w: Written) {
    && IsArgument(w.provider) && IsArgument(w.domain) && IsArgument(w.operator)
    && (forall i :: 0 <= i < |Types(w)| ==> IsArgument(Types(w)[i]))
  }

  // ---------------------------------------------------------------- layout

  function Header(form: Form): string { "BuildKernelCreateInfo" + ['<'] + Macro(form) + ['('] }

  function ArgTokens(args: seq<string>, mark: string): seq<string>
    requires args != []
  {
    if |args| == 1 then [args[0] + mark] else [args[0] + [',']] + ArgTokens(args[1..], mark)
  }

  function Tokens(w: Written, mark: string): seq<string> {
    [Header(w.form)] + ArgTokens(Args(w), mark)
  }

  /** A line: each token after a gap of white space, and trailing white space such as the line end. */
  datatype Line = Line(gaps: seq<string>, tokens: seq<string>, trail: string)

  predicate Spaces(gaps: seq<string>) {
    forall i :: 0 <= i < |gaps| ==> AllSpace(gaps[i])
  }

  predicate IsLine(l: Line) {
    |l.gaps| == |l.tokens| && Spaces(l.gaps) && AllSpace(l.trail)
  }

  function Woven(gaps: seq<string>, tokens: seq<string>): string
    requires |gaps| == |tokens|
  {
    if tokens == [] then "" else gaps[0] + tokens[0] + Woven(gaps[1..], tokens[1..])
  }

  function TextOf(l: Line): string
    requires IsLine(l)
  {
    Woven(l.gaps, l.tokens) + l.trail
  }

  predicate IsLayout(layout: seq<Line>) {
    forall i :: 0 <= i < |layout| ==> IsLine(layout[i])
  }

  function Texts(layout: seq<Line>): seq<string>
    requires IsLayout(layout)
  {
    if layout == [] then [] else [TextOf(layout[0])] + Texts(layout[1..])
  }

  function TokensIn(layout: seq<Line>): seq<string> {
    if layout == [] then [] else layout[0].tokens + TokensIn(layout[1..])
  }

  /** Gaps as the merged line has them: stripping takes away the first one of each line. */
  function Inner(gaps: seq<string>): seq<string> {
    if gaps == [] then [] else [""] + gaps[1..]
  }

  function GapsIn(layout: seq<Line>): seq<string> {
    if layout == [] then [] else Inner(layout[0].gaps) + GapsIn(layout[1..])
  }

  /** The tokens in order on one or more lines, the first and the last of which are not blank. */
  predicate LaysOut(layout: seq<Line>, tokens: seq<string>) {
    IsLayout(layout) && layout != [] && TokensIn(layout) == tokens &&
    layout[0].tokens != [] && layout[|layout| - 1].tokens != []
  }

  predicate AreTrimmed(tokens: seq<string>) {
    forall i :: 0 <= i < |tokens| ==> tokens[i] != "" && Trimmed(tokens[i])
  }

  lemma WovenHead(gaps: seq<string>, tokens: seq<string>)
    requires |gaps| == |tokens| && tokens != []
    ensures Woven(gaps, tokens) == gaps[0] + Woven(Inner(gaps), tokens)
    ensures StartsWith(Woven(Inner(gaps), tokens), tokens[0])
  {
    WovenStep(gaps, tokens);
    WovenStep(Inner(gaps), tokens);
    assert Inner(gaps)[1..] == gaps[1..] && Inner(gaps)[0] == "";
    hide *;
    HeadAlgebra(gaps[0], tokens[0], Woven(gaps[1..], tokens[1..]));
  }

  lemma HeadAlgebra(g: string, t: string, rest: string)
    ensures "" + t + rest == t + rest && g + t + rest == g + (t + rest) && StartsWith(t + rest, t)
  {
  }

  lemma WovenStep(gaps: seq<string>, tokens: seq<string>)
    requires |gaps| == |tokens| && tokens != []
    ensures Woven(gaps, tokens) == gaps[0] + tokens[0] + Woven(gaps[1..], tokens[1..])
  {
  }

  lemma {:induction false} WovenLast(gaps: seq<string>, tokens: seq<string>)
    requires |gaps| == |tokens| && tokens != []
    ensures EndsWith(Woven(gaps, tokens), tokens[|tokens| - 1])
  {
    if |tokens| > 1 {
      WovenLast(gaps[1..], tokens[1..]);
      var rest := Woven(gaps[1..], tokens[1..]);
      EndsWithAppend(gaps[0] + tokens[0], rest, tokens[|tokens| - 1]);
    } else {
      assert Woven(gaps[1..], tokens[1..]) == "";
      assert Woven(gaps, tokens) == gaps[0] + tokens[0];
    }
  }

  lemma EndsWithAppend(a: string, b: string, suffix: string)
    requires EndsWith(b, suffix)
    ensures EndsWith(a + b, suffix)
  {
    assert (a + b)[|a| + |b| - |suffix|..] == b[|b| - |suffix|..];
  }

  /** Stripping a line leaves its tokens and the gaps between them. */
  lemma StripLine(l: Line)
    requires IsLine(l) && AreTrimmed(l.tokens)
    ensures Strip(TextOf(l)) == Woven(Inner(l.gaps), l.tokens)
  {
    hide Woven, Strip;
    if l.tokens == [] {
      BlankLine(l);
    } else {
      var w := Woven(Inner(l.gaps), l.tokens);
      WovenHead(l.gaps, l.tokens);
      WovenLast(Inner(l.gaps), l.tokens);
      TrimmedByEnds(w, l.tokens[0], l.tokens[|l.tokens| - 1]);
      StripPadding(l.gaps[0], w, l.trail);
    }
  }

  lemma TrimmedByEnds(w: string, first: string, last: string)
    requires StartsWith(w, first) && EndsWith(w, last) && first != "" && last != "" && Trimmed(first) && Trimmed(last)
    ensures Trimmed(w)
  {
    assert w[..|first|][0] == first[0];
    assert w[|w| - |last|..][|last| - 1] == last[|last| - 1];
  }

  lemma BlankLine(l: Line)
    requires IsLine(l) && l.tokens == []
    ensures Strip(TextOf(l)) == "" == Woven(Inner(l.gaps), l.tokens)
  {
    StripPadding(l.trail, "", "");
    assert l.trail + "" + "" == l.trail == "" + l.trail;
  }

  lemma {:induction false} WovenAppend(g: seq<string>, t: seq<string>, g': seq<string>, t': seq<string>)
    requires |g| == |t| && |g'| == |t'|
    ensures Woven(g + g', t + t') == Woven(g, t) + Woven(g', t')
  {
    if t == [] {
      assert g + g' == g' && t + t' == t';
    } else {
      assert (g + g')[1..] == g[1..] + g' && (t + t')[1..] == t[1..] + t';
      WovenAppend(g[1..], t[1..], g', t');
    }
  }

  /** The merged line is the tokens with white space between them. */
  lemma {:induction false} MergedLine(layout: seq<Line>)
    requires IsLayout(layout) && AreTrimmed(TokensIn(layout))
    ensures |GapsIn(layout)| == |TokensIn(layout)| && Spaces(GapsIn(layout))
    ensures CodeLine(Texts(layout)) == Woven(GapsIn(layout), TokensIn(layout))
  {
    hide Strip, TextOf, Woven, IsLine, AllSpace;
    if layout == [] {
      NothingWoven();
    } else {
      var l, rest := layout[0], layout[1..];
      var t, r := l.tokens, TokensIn(rest);
      assert forall i :: 0 <= i < |t| ==> (t + r)[i] == t[i];
      assert forall i :: 0 <= i < |r| ==> (t + r)[|t| + i] == r[i];
      MergedLine(rest);
      StripLine(l);
      InnerSpaces(l);
      WovenAppend(Inner(l.gaps), t, GapsIn(rest), r);
      assert Texts(layout)[1..] == Texts(rest);
    }
  }

  lemma NothingWoven()
    ensures Woven([], []) == ""
  {
  }

  lemma InnerSpaces(l: Line)
    requires IsLine(l)
    ensures |Inner(l.gaps)| == |l.tokens| && Spaces(Inner(l.gaps))
  {
  }

  // ---------------------------------------------------------------- macro names in text

  predicate IsMacroChar(c: char) { 'A' <= c <= 'Z' || c == '_' }

  lemma TailChars(form: Form, c: char)
    requires !IsMacroChar(c) || c == 'X'
    ensures c !in Tail(form)
  {
    assert c !in "_OPERATOR" && c !in "_VERSIONED" && c !in "_KERNEL_CLASS_NAME";
    assert c !in "" && c !in "_TYPED" && c !in "_TWO_TYPED";
  }

  lemma MacroChars(form: Form, c: char)
    requires !IsMacroChar(c)
    ensures c !in Macro(form)
  {
    TailChars(form, c);
    assert c !in "ONNX";
  }

  /** Letters that tell the forms apart. */
  lemma TailLetters(f: Form)
    ensures |Tail(f)| > 21
    ensures Tail(f)[10] == match f case Plain => 'K' case Typed => 'T' case TwoTyped => 'T' case _ => 'V'
    ensures f.Typed? ==> Tail(f)[11] == 'Y'
    ensures f.TwoTyped? ==> Tail(f)[11] == 'W'
    ensures f.Versioned? ==> Tail(f)[21] == 'E'
    ensures f.VersionedTyped? ==> Tail(f)[21] == 'Y'
    ensures f.VersionedTwoTyped? ==> Tail(f)[21] == 'W'
  {
    assert |"_OPERATOR"| == 9 && |"_VERSIONED"| == 10 && |"_KERNEL_CLASS_NAME"| == 18;
    assert "_KERNEL_CLASS_NAME"[1] == 'K' && "_KERNEL_CLASS_NAME"[2] == 'E' && "_VERSIONED"[1] == 'V';
    assert "_TYPED"[1] == 'T' && "_TYPED"[2] == 'Y' && "_TWO_TYPED"[1] == 'T' && "_TWO_TYPED"[2] == 'W';
  }

  /** No macro name is the beginning of another. */
  lemma MacrosDiffer(f: Form, g: Form)
    requires StartsWith(Macro(f), Macro(g))
    ensures f == g
  {
    TailLetters(f);
    TailLetters(g);
    hide Tail;
    var a, b := Tail(f), Tail(g);
    forall k | 0 <= k < |b| ensures k < |a| && a[k] == b[k] {
      assert Macro(f)[..|Macro(g)|][k + 4] == Macro(g)[k + 4];
    }
    assert a[10] == b[10] && a[11] == b[11] && a[21] == b[21];
  }

  lemma {:induction false} FindIsFirst(s: string, needle: string)
    ensures match Find(s, needle)
            case None => forall p :: !Occurs(s, needle, p)
            case Some(i) => Occurs(s, needle, i) && forall p :: p < i ==> !Occurs(s, needle, p)
  {
    hide Occurs;
    if s != [] {
      FindIsFirst(s[1..], needle);
      forall p ensures Occurs(s, needle, p) <==> (p == 0 && StartsWith(s, needle)) || (p > 0 && Occurs(s[1..], needle, p - 1)) {
        OccursShift(s, needle, p);
      }
    } else {
      forall p ensures Occurs(s, needle, p) ==> p == 0 && StartsWith(s, needle) { OccursInNothing(needle, p); }
      if StartsWith(s, needle) { OccursInNothing(needle, 0); }
    }
    forall p ensures Occurs(s, needle, p) ==> p >= 0 { OccursFrom(s, needle, p); }
  }

  lemma OccursFrom(s: string, needle: string, p: int)
    ensures Occurs(s, needle, p) ==> p >= 0
  {
  }

  lemma OccursInNothing(needle: string, p: int)
    ensures Occurs("", needle, p) <==> p == 0 && needle == ""
  {
  }

  lemma OccursShift(s: string, needle: string, p: int)
    requires s != []
    ensures Occurs(s, needle, p) <==> (p == 0 && StartsWith(s, needle)) || (p > 0 && Occurs(s[1..], needle, p - 1))
  {
    if 0 < p && p + |needle| <= |s| { assert s[1..][p - 1..p - 1 + |needle|] == s[p..p + |needle|]; }
    if p == 0 && |needle| <= |s| { assert s[0..|needle|] == s[..|needle|]; }
  }

  /** An occurrence cannot span a character that is not in the needle. */
  lemma OccursAcross(a: string, c: char, b: string, needle: string, p: int)
    requires c !in needle
    ensures Occurs(a + [c] + b, needle, p) ==> Occurs(a, needle, p) || Occurs(b, needle, p - |a| - 1)
  {
    var s := a + [c] + b;
    if 0 <= p && p + |needle| <= |s| {
      if p <= |a| < p + |needle| {
        assert s[p..p + |needle|][|a| - p] == c;
      } else if p > |a| {
        assert b[p - |a| - 1..p - |a| - 1 + |needle|] == s[p..p + |needle|];
      } else {
        assert a[p..p + |needle|] == s[p..p + |needle|];
      }
    }
  }

  lemma NoMacroAcross(a: string, c: char, b: string)
    requires NoMacro(a) && NoMacro(b) && !IsMacroChar(c)
    ensures NoMacro(a + [c] + b)
  {
    forall form, p ensures !Occurs(a + [c] + b, Macro(form), p) {
      MacroChars(form, c);
      OccursAcross(a, c, b, Macro(form), p);
    }
  }

  lemma NoMacroInNothing()
    ensures NoMacro("")
  {
    forall form, p ensures !Occurs("", Macro(form), p) { assert |Macro(form)| >= 4; }
  }

  /** Text of characters that no macro name has. */
  lemma {:induction false} NoMacroPadded(pad: string, b: string)
    requires (forall i :: 0 <= i < |pad| ==> !IsMacroChar(pad[i])) && NoMacro(b)
    ensures NoMacro(pad + b)
  {
    if pad == "" {
      assert pad + b == b;
    } else {
      NoMacroPadded(pad[1..], b);
      NoMacroInNothing();
      NoMacroAcross("", pad[0], pad[1..] + b);
      assert "" + [pad[0]] + (pad[1..] + b) == pad + b;
    }
  }

  lemma NothingBefore(form: Form, p: int)
    ensures !Occurs("BuildKernelCreateInfo", Macro(form), p)
  {
    TailLetters(form);
    assert |"BuildKernelCreateInfo"| == 21;
  }

  lemma OccursHas(s: string, needle: string, p: int, k: nat)
    requires Occurs(s, needle, p) && k < |needle|
    ensures needle[k] == s[p + k] && needle[k] in s
  {
    assert s[p..p + |needle|][k] == s[p + k];
  }

  /** A macro name occurs in another one only if it is the same, at its beginning. */
  lemma OccursInMacro(f: Form, g: Form, p: int)
    requires Occurs(Macro(f), Macro(g), p)
    ensures p == 0 && f == g
  {
    TailChars(f, 'X');
    hide Tail;
    var m := Macro(f);
    OccursHas(m, Macro(g), p, 3);
    forall k | 4 <= k < |m| ensures m[k] != 'X' { assert m[k] == Tail(f)[k - 4]; }
    assert m[0..|Macro(g)|] == m[..|Macro(g)|];
    MacrosDiffer(f, g);
  }

  /** In a written registration, only its own macro name occurs, behind the opening text. */
  lemma HeaderOccurs(form: Form, rest: string, g: Form, p: int)
    requires NoMacro(rest) && Occurs(Header(form) + rest, Macro(g), p)
    ensures p == 22 && g == form
  {
    hide Macro;
    var a, m := "BuildKernelCreateInfo", Macro(form);
    MacroChars(g, '(');
    MacroChars(g, '<');
    assert Header(form) + rest == (a + ['<'] + m) + ['('] + rest;
    OccursAcross(a + ['<'] + m, '(', rest, Macro(g), p);
    OccursAcross(a, '<', m, Macro(g), p);
    NothingBefore(g, p);
    assert |a| == 21;
    OccursInMacro(form, g, p - 22);
  }

  lemma HeaderFound(form: Form, rest: string, g: Form)
    requires NoMacro(rest)
    ensures Find(Header(form) + rest, Macro(g)) == if g == form then Some(22) else None
  {
    hide Macro;
    var code := Header(form) + rest;
    FindIsFirst(code, Macro(g));
    if g == form {
      assert |"BuildKernelCreateInfo"| == 21;
      assert code[22..22 + |Macro(g)|] == Macro(g);
      assert Occurs(code, Macro(g), 22);
    }
    match Find(code, Macro(g))
    case None =>
    case Some(i) => HeaderOccurs(form, rest, g, i);
  }

  lemma RecognizesForm(form: Form, rest: string)
    requires NoMacro(rest)
    ensures Recognize(Header(form) + rest, Forms) == Some((form, 22))
  {
    hide Find, Macro;
    var code := Header(form) + rest;
    forall g ensures Find(code, Macro(g)) == if g == form then Some(22) else None { HeaderFound(form, rest, g); }
    RecognizesAmong(code, form, Forms);
  }

  lemma {:induction false} RecognizesAmong(code: string, form: Form, forms: seq<Form>)
    requires forall g :: Find(code, Macro(g)) == if g == form then Some(22) else None
    requires form in forms
    ensures Recognize(code, forms) == Some((form, 22))
  {
    hide Find, Macro;
    if forms[0] != form {
      assert forms == [forms[0]] + forms[1..];
      RecognizesAmong(code, form, forms[1..]);
    }
  }

  // ---------------------------------------------------------------- the arguments

  ghost predicate AreArguments(args: seq<string>) {
    forall i :: 0 <= i < |args| ==> IsArgument(args[i])
  }

  function ArgText(gaps: seq<string>, args: seq<string>): string
    requires |gaps| == |args| > 0
  {
    if |args| == 1 then gaps[0] + args[0] else gaps[0] + args[0] + [','] + ArgText(gaps[1..], args[1..])
  }

  lemma {:induction false} ArgTokensCount(args: seq<string>, mark: string)
    requires args != []
    ensures |ArgTokens(args, mark)| == |args|
  {
    if |args| > 1 { ArgTokensCount(args[1..], mark); }
  }

  lemma {:induction false} WovenArgs(gaps: seq<string>, args: seq<string>, mark: string)
    requires |gaps| == |args| > 0 && |ArgTokens(args, mark)| == |args|
    ensures Woven(gaps, ArgTokens(args, mark)) == ArgText(gaps, args) + mark
  {
    var tokens := ArgTokens(args, mark);
    WovenStep(gaps, tokens);
    if |args| == 1 {
      NothingWoven();
      assert gaps[1..] == [] && tokens[1..] == [];
      assert gaps[0] + (args[0] + mark) + "" == gaps[0] + args[0] + mark;
    } else {
      assert tokens[1..] == ArgTokens(args[1..], mark);
      WovenArgs(gaps[1..], args[1..], mark);
    }
  }

  /** Splitting at the commas and stripping gives the arguments back. */
  lemma {:induction false} SplitArgs(gaps: seq<string>, args: seq<string>)
    requires |gaps| == |args| > 0 && Spaces(gaps) && AreArguments(args)
    ensures Stripped(Split(ArgText(gaps, args), ',')) == args
  {
    hide Split, Strip, NoMacro;
    var g, a := gaps[0], args[0];
    assert IsArgument(a) && AllSpace(g);
    StripPadding(g, a, "");
    assert g + a + "" == g + a;
    SpacesFree(g);
    SplitOfFree(g + a, ',');
    if |args| > 1 {
      var gs, rest := gaps[1..], args[1..];
      assert forall i :: 0 <= i < |rest| ==> rest[i] == args[i + 1] && gs[i] == gaps[i + 1];
      SplitArgs(gs, rest);
      SplitAppend(g + a, ArgText(gs, rest), ',');
      StrippedCons(g + a, Split(ArgText(gs, rest), ','));
      assert args == [a] + rest;
    } else {
      StrippedCons(g + a, []);
      assert [g + a] + [] == [g + a] && args == [a];
    }
  }

  lemma SpacesFree(g: string)
    requires AllSpace(g)
    ensures Free(g, ',')
  {
  }

  lemma StrippedCons(p: string, rest: seq<string>)
    ensures Stripped([p] + rest) == [Strip(p)] + Stripped(rest)
  {
    hide Strip;
  }

  lemma {:induction false} NoMacroInArgs(gaps: seq<string>, args: seq<string>, mark: string)
    requires |gaps| == |args| > 0 && Spaces(gaps) && AreArguments(args) && NoMacro(mark) && mark in EndMarks
    ensures NoMacro(ArgText(gaps, args) + mark)
  {
    hide NoMacro, IsArgument, AllSpace, IsMacroChar, EndMarks;
    var g, a := gaps[0], args[0];
    ArgumentHasNone(a);
    if |args| == 1 {
      MarkSplits(mark);
      NoMacroBehind(g, a, ')', mark[1..]);
      assert g + (a + [')'] + mark[1..]) == ArgText(gaps, args) + mark;
    } else {
      var gs, rest := gaps[1..], args[1..];
      assert forall i :: 0 <= i < |rest| ==> rest[i] == args[i + 1] && gs[i] == gaps[i + 1];
      NoMacroInArgs(gs, rest, mark);
      var tail := ArgText(gs, rest) + mark;
      NoMacroBehind(g, a, ',', tail);
      assert g + (a + [','] + tail) == ArgText(gaps, args) + mark;
    }
  }

  lemma NoMacroBehind(g: string, a: string, c: char, tail: string)
    requires AllSpace(g) && NoMacro(a) && NoMacro(tail) && (c == ',' || c == ')')
    ensures NoMacro(g + (a + [c] + tail))
  {
    hide NoMacro;
    NoMacroAcross(a, c, tail);
    NoMacroPadded(g, a + [c] + tail);
  }

  lemma ArgumentHasNone(a: string)
    requires IsArgument(a)
    ensures NoMacro(a)
  {
  }

  lemma MarkSplits(mark: string)
    requires mark in EndMarks
    ensures mark == [')'] + mark[1..] && NoMacro(mark[1..]) && NoMacro(mark)
  {
    hide Macro;
    NoMacroInNothing();
    NoMacroPadded(mark, "");
    NoMacroPadded(mark[1..], "");
    assert mark + "" == mark && mark[1..] + "" == mark[1..];
  }

  lemma DecimalIsArgument(n: nat)
    ensures IsArgument(Decimal(n))
  {
    hide Macro, Decimal;
    var s := Decimal(n);
    NoMacroInNothing();
    NoMacroPadded(s, "");
    assert s + "" == s && IsDigit(s[0]) && IsDigit(s[|s| - 1]);
    FromEnd(s, ")>", 1);
  }

  lemma ParseDecimal(n: nat)
    ensures ParseInt(Decimal(n)) == Some(n)
  {
    hide Decimal, Strip, NumberOf, OnlyDigits;
    var s := Decimal(n);
    assert IsDigit(s[0]) && IsDigit(s[|s| - 1]);
    StripOfTrimmed(s);
    OnlyDigitsAppend("", s);
    NumberOfDecimal(n);
  }

  lemma InterpretsArgs(w: Written)
    ensures Interpret(w.form, Args(w)) == Some(InfoOf(w))
  {
    ParseDecimal(w.start);
    ParseDecimal(w.end);
    hide ParseInt, Decimal;
  }

  /** Only the last arguments of each form count, whatever stands before them; with fewer there is no registration. */
  lemma LastArgumentsCount(w: Written, before: seq<string>, few: seq<string>)
    ensures Interpret(w.form, before + Args(w)[1..]) == Some(InfoOf(w))
    ensures |few| < |Args(w)| - 1 ==> Interpret(w.form, few) == None
  {
    hide ParseInt, Decimal;
    InterpretsArgs(w);
    var all, args := Args(w), before + Args(w)[1..];
    assert forall k :: 1 <= k < |all| ==> args[|before| + k - 1] == all[k];
  }

  lemma ArgsAreArguments(w: Written)
    requires IsWritten(w)
    ensures AreArguments(Args(w))
  {
    DecimalIsArgument(w.start);
    DecimalIsArgument(w.end);
    hide IsArgument, Decimal, Types;
    var args := Args(w);
    var n := |args| - 1 - |Types(w)|;
    forall i | 0 <= i < |args| ensures IsArgument(args[i]) {
      if n <= i < |args| - 1 { assert args[i] == Types(w)[i - n]; }
    }
  }

  // ---------------------------------------------------------------- the lines

  /** A line that ends with such a token does not end with a mark. */
  predicate GoesOn(token: string) {
    var n := |token|;
    && n > 0
    && (token[n - 1] == '(' ||
        (n > 1 && token[n - 1] == ',' && (token[n - 2] != '>' || (n > 2 && token[n - 3] != ')'))))
  }

  lemma FromEnd(s: string, t: string, k: nat)
    requires 1 <= k <= |t|
    ensures EndsWith(s, t) ==> k <= |s| && s[|s| - k] == t[|t| - k]
  {
    if EndsWith(s, t) { assert s[|s| - |t|..][|t| - k] == s[|s| - k]; }
  }

  lemma MarksFromEnd(s: string)
    ensures EndsWith(s, ");") ==> |s| >= 2 && s[|s| - 1] == ';' && s[|s| - 2] == ')'
    ensures EndsWith(s, ")>") ==> |s| >= 2 && s[|s| - 1] == '>' && s[|s| - 2] == ')'
    ensures EndsWith(s, ")>,") ==> |s| >= 3 && s[|s| - 1] == ',' && s[|s| - 2] == '>' && s[|s| - 3] == ')'
    ensures EndsWith(s, ")>,};") ==> |s| >= 3 && s[|s| - 1] == ';' && s[|s| - 2] == '}' && s[|s| - 3] == ','
    ensures EndsWith(s, ")>};") ==> |s| >= 3 && s[|s| - 1] == ';' && s[|s| - 2] == '}' && s[|s| - 3] == '>'
  {
    FromEnd(s, ");", 1);
    FromEnd(s, ");", 2);
    FromEnd(s, ")>", 1);
    FromEnd(s, ")>", 2);
    FromEnd(s, ")>,", 1);
    FromEnd(s, ")>,", 2);
    FromEnd(s, ")>,", 3);
    FromEnd(s, ")>,};", 1);
    FromEnd(s, ")>,};", 2);
    FromEnd(s, ")>,};", 3);
    FromEnd(s, ")>};", 1);
    FromEnd(s, ")>};", 2);
    FromEnd(s, ")>};", 3);
    hide *;
  }

  lemma GoesOnHasNoMark(s: string, token: string)
    requires EndsWith(s, token) && GoesOn(token)
    ensures EndMark(s).None?
  {
    MarksFromEnd(s);
    FromEnd(s, token, 1);
    if |token| > 1 { FromEnd(s, token, 2); }
    if |token| > 2 { FromEnd(s, token, 3); }
    hide EndsWith;
  }

  lemma EndsInMark(s: string, mark: string)
    requires mark in EndMarks && EndsWith(s, mark)
    ensures EndMark(s) == Some(mark)
  {
    MarksFromEnd(s);
    hide EndsWith;
  }

  lemma ArgumentGoesOn(a: string)
    requires IsArgument(a)
    ensures GoesOn(a + [','])
  {
    var n := |a|;
    if n > 1 && a[n - 1] == '>' { assert a[n - 2..] == [a[n - 2], a[n - 1]]; }
    hide *;
  }

  predicate AllGoOn(tokens: seq<string>) {
    forall i :: 0 <= i < |tokens| ==> GoesOn(tokens[i])
  }

  predicate AreTokens(tokens: seq<string>, mark: string) {
    && tokens != [] && AreTrimmed(tokens)
    && AllGoOn(tokens[..|tokens| - 1]) && EndsWith(tokens[|tokens| - 1], mark)
  }

  lemma TokensCons(t: string, rest: seq<string>, mark: string)
    requires AreTokens(rest, mark) && t != "" && Trimmed(t) && GoesOn(t)
    ensures AreTokens([t] + rest, mark)
  {
    hide GoesOn, EndsWith, Trimmed;
    var all := [t] + rest;
    assert all[..|all| - 1] == [t] + rest[..|rest| - 1];
    assert forall i :: 0 <= i < |rest| ==> all[i + 1] == rest[i];
    assert forall i :: 1 <= i < |all| ==> all[i] == rest[i - 1];
  }

  lemma LastToken(a: string, mark: string)
    requires IsArgument(a) && mark in EndMarks
    ensures AreTokens([a + mark], mark)
  {
    var all := [a + mark];
    assert all[..0] == [] && (a + mark)[|a|..] == mark;
    hide NoMacro;
  }

  lemma {:induction false} ArgTokensAreTokens(args: seq<string>, mark: string)
    requires args != [] && AreArguments(args) && mark in EndMarks
    ensures AreTokens(ArgTokens(args, mark), mark)
  {
    assert IsArgument(args[0]);
    if |args| == 1 {
      LastToken(args[0], mark);
    } else {
      assert forall i :: 0 <= i < |args[1..]| ==> args[1..][i] == args[i + 1];
      ArgTokensAreTokens(args[1..], mark);
      ArgumentGoesOn(args[0]);
      TokensCons(args[0] + [','], ArgTokens(args[1..], mark), mark);
    }
  }

  lemma TokensAreTokens(w: Written, mark: string)
    requires IsWritten(w) && mark in EndMarks
    ensures AreTokens(Tokens(w, mark), mark)
  {
    ArgsAreArguments(w);
    ArgTokensAreTokens(Args(w), mark);
    HeaderShape(w.form);
    hide *;
    TokensStep(w, mark);
    TokensCons(Header(w.form), ArgTokens(Args(w), mark), mark);
  }

  lemma TokensStep(w: Written, mark: string)
    ensures Tokens(w, mark) == [Header(w.form)] + ArgTokens(Args(w), mark)
  {
  }

  lemma HeaderShape(form: Form)
    ensures Header(form) != "" && Trimmed(Header(form)) && GoesOn(Header(form)) && StartsWith(Header(form), Opening)
  {
    var h := Header(form);
    hide Tail;
    assert "BuildKernelCreateInfo"[0] == 'B' == h[0] && h[|h| - 1] == '(';
    assert Opening == "BuildKernelCreateInfo" + ['<'] + "ONNX";
    assert h == ("BuildKernelCreateInfo" + ['<'] + "ONNX") + (Tail(form) + ['(']);
  }

  /** Every line but the last goes on. */
  lemma {:induction false} LinesGoOn(layout: seq<Line>, i: nat)
    requires i < |layout| && layout[|layout| - 1].tokens != []
    requires TokensIn(layout) != [] ==> AllGoOn(TokensIn(layout)[..|TokensIn(layout)| - 1])
    ensures TokensIn(layout) != []
    ensures i < |layout| - 1 ==> AllGoOn(layout[i].tokens)
    ensures var last := layout[|layout| - 1].tokens; last[|last| - 1] == TokensIn(layout)[|TokensIn(layout)| - 1]
  {
    hide GoesOn;
    var l, rest := layout[0].tokens, layout[1..];
    if |layout| > 1 {
      var r := TokensIn(rest);
      var all := l + r;
      if r != [] {
        assert all[..|all| - 1] == l + r[..|r| - 1];
        assert forall k :: 0 <= k < |l| ==> all[..|all| - 1][k] == l[k];
        var most := r[..|r| - 1];
        forall k | 0 <= k < |most| ensures GoesOn(most[k]) { assert all[..|all| - 1][|l| + k] == most[k]; }
      }
      LinesGoOn(rest, if i == 0 then 0 else i - 1);
    }
  }

  lemma LineGoesOn(l: Line)
    requires IsLine(l) && AreTrimmed(l.tokens) && AllGoOn(l.tokens)
    ensures !Ends(TextOf(l))
  {
    StripLine(l);
    hide Strip, Woven, TextOf, GoesOn;
    var n := |l.tokens|;
    if n == 0 {
      BlankLine(l);
    } else {
      WovenLast(Inner(l.gaps), l.tokens);
      GoesOnHasNoMark(Strip(TextOf(l)), l.tokens[n - 1]);
    }
  }

  lemma LastLineEnds(l: Line, mark: string)
    requires IsLine(l) && AreTrimmed(l.tokens) && l.tokens != [] && mark in EndMarks
    requires EndsWith(l.tokens[|l.tokens| - 1], mark)
    ensures Ends(TextOf(l)) && EndMark(Strip(TextOf(l))) == Some(mark)
  {
    StripLine(l);
    hide Strip, Woven, TextOf, EndMark;
    var last := l.tokens[|l.tokens| - 1];
    WovenLast(Inner(l.gaps), l.tokens);
    var s := Strip(TextOf(l));
    EndsWithin(s, last, mark);
    EndsInMark(s, mark);
  }

  lemma EndsWithin(s: string, t: string, suffix: string)
    requires EndsWith(s, t) && EndsWith(t, suffix)
    ensures EndsWith(s, suffix)
  {
    assert s[|s| - |t|..][|t| - |suffix|..] == s[|s| - |suffix|..];
  }

  lemma FirstLineOpens(l: Line, form: Form)
    requires IsLine(l) && AreTrimmed(l.tokens) && l.tokens != [] && l.tokens[0] == Header(form)
    ensures Opens(TextOf(l))
  {
    hide Strip, Woven, TextOf, Header, Opens;
    StripLine(l);
    WovenHead(l.gaps, l.tokens);
    HeaderShape(form);
    OpensBy(TextOf(l), l.tokens[0]);
  }

  lemma OpensBy(line: string, h: string)
    requires StartsWith(Strip(line), h) && StartsWith(h, Opening)
    ensures Opens(line)
  {
    hide Strip;
    var s := Strip(line);
    assert s[..|h|][..|Opening|] == s[..|Opening|];
  }

  // ---------------------------------------------------------------- recovery

  /** The merged line of a registration. */
  lemma WrittenLine(w: Written, mark: string, gaps: seq<string>)
    requires IsWritten(w) && mark in EndMarks && |gaps| == |Tokens(w, mark)| && gaps[0] == "" && Spaces(gaps)
    ensures |gaps[1..]| == |Args(w)| && Spaces(gaps[1..])
    ensures Woven(gaps, Tokens(w, mark)) == Header(w.form) + (ArgText(gaps[1..], Args(w)) + mark)
  {
    var args := Args(w);
    ArgTokensCount(args, mark);
    hide Woven, Header, Args, ArgText, IsWritten;
    WovenStep(gaps, Tokens(w, mark));
    assert Tokens(w, mark)[1..] == ArgTokens(args, mark);
    WovenArgs(gaps[1..], args, mark);
    assert forall i :: 0 <= i < |gaps| - 1 ==> gaps[1..][i] == gaps[i + 1];
    assert "" + Header(w.form) == Header(w.form);
  }

  lemma WrittenEvents(w: Written, mark: string, gaps: seq<string>, lines: seq<string>)
    requires IsWritten(w) && mark in EndMarks && |gaps| == |Args(w)| && Spaces(gaps)
    requires CodeLine(lines) == Header(w.form) + (ArgText(gaps, Args(w)) + mark)
    ensures Events(lines, mark) == Some([Registered(lines, InfoOf(w))])
  {
    hide *;
    var args := Args(w);
    ArgsAreArguments(w);
    MarkSplits(mark);
    NoMacroInArgs(gaps, args, mark);
    SplitArgs(gaps, args);
    RecognizesForm(w.form, ArgText(gaps, args) + mark);
    InterpretsArgs(w);
    ArgumentsBetween(w.form, ArgText(gaps, args), mark);
    EventsOf(lines, mark, w.form, 22, InfoOf(w));
  }

  lemma ArgumentsBetween(form: Form, text: string, mark: string)
    ensures Arguments(Header(form) + (text + mark), 22, form, mark) == Stripped(Split(text, ','))
  {
    HeaderLength(form);
    hide Split, Stripped, Macro, Header;
    var code := Header(form) + (text + mark);
    assert code[|Header(form)|..|code| - |mark|] == text;
  }

  lemma EventsOf(lines: seq<string>, mark: string, form: Form, at: nat, info: Info)
    ensures var code := CodeLine(lines);
            Recognize(code, Forms) == Some((form, at)) && Interpret(form, Arguments(code, at, form, mark)) == Some(info) ==>
            Events(lines, mark) == Some([Registered(lines, info)])
  {
    hide Recognize, Interpret, Arguments, CodeLine;
  }

  lemma HeaderLength(form: Form)
    ensures |Header(form)| == 22 + |Macro(form)| + 1
  {
    assert |"BuildKernelCreateInfo"| == 21;
  }

  lemma {:induction false} TextsAt(layout: seq<Line>, i: nat)
    requires IsLayout(layout) && i < |layout|
    ensures |Texts(layout)| == |layout| && Texts(layout)[i] == TextOf(layout[i])
  {
    hide TextOf, IsLine;
    if |layout| > 1 { TextsAt(layout[1..], if i == 0 then 0 else i - 1); }
  }

  lemma {:induction false} LineTrimmed(layout: seq<Line>, i: nat)
    requires i < |layout| && AreTrimmed(TokensIn(layout))
    ensures AreTrimmed(layout[i].tokens)
  {
    hide Trimmed;
    var l, r := layout[0].tokens, TokensIn(layout[1..]);
    assert forall k :: 0 <= k < |l| ==> (l + r)[k] == l[k];
    assert forall k :: 0 <= k < |r| ==> (l + r)[|l| + k] == r[k];
    if i == 0 {
    } else {
      LineTrimmed(layout[1..], i - 1);
    }
  }

  lemma LaidOut(layout: seq<Line>, w: Written, mark: string)
    requires LaysOut(layout, Tokens(w, mark))
    ensures IsLayout(layout) && layout != [] && TokensIn(layout) == Tokens(w, mark)
    ensures layout[0].tokens != [] && layout[0].tokens[0] == Header(w.form) && layout[|layout| - 1].tokens != []
    ensures forall i :: 0 <= i < |layout| ==> IsLine(layout[i])
  {
    hide Header, Args, IsLine, Tokens, TokensIn;
    TokensStep(w, mark);
    FirstToken(layout);
  }

  lemma FirstToken(layout: seq<Line>)
    requires layout != [] && layout[0].tokens != []
    ensures TokensIn(layout) != [] && TokensIn(layout)[0] == layout[0].tokens[0]
  {
  }

  lemma TokensHave(tokens: seq<string>, mark: string)
    requires AreTokens(tokens, mark)
    ensures tokens != [] && AreTrimmed(tokens)
    ensures AllGoOn(tokens[..|tokens| - 1]) && EndsWith(tokens[|tokens| - 1], mark)
  {
  }

  /** The first line of a layout opens a registration and its last line, but no other, ends one. */
  lemma LayoutBounds(w: Written, mark: string, layout: seq<Line>)
    requires IsWritten(w) && mark in EndMarks && LaysOut(layout, Tokens(w, mark)) && IsLayout(layout)
    ensures |Texts(layout)| == |layout| > 0 && Opens(Texts(layout)[0])
    ensures forall i :: 0 <= i < |layout| - 1 ==> !Ends(Texts(layout)[i])
    ensures var last := Texts(layout)[|layout| - 1]; Ends(last) && EndMark(Strip(last)) == Some(mark)
  {
    hide *;
    LaidOut(layout, w, mark);
    TokensAreTokens(w, mark);
    TokensHave(Tokens(w, mark), mark);
    var n := |layout|;
    TextsAt(layout, 0);
    LineTrimmed(layout, 0);
    FirstLineOpens(layout[0], w.form);
    TextsAt(layout, n - 1);
    LineTrimmed(layout, n - 1);
    LinesGoOn(layout, n - 1);
    LastLineEnds(layout[n - 1], mark);
    forall i | 0 <= i < n - 1 ensures !Ends(Texts(layout)[i]) {
      TextsAt(layout, i);
      LineTrimmed(layout, i);
      LinesGoOn(layout, i);
      LineGoesOn(layout[i]);
    }
  }

  lemma LayoutEvents(w: Written, mark: string, layout: seq<Line>)
    requires IsWritten(w) && mark in EndMarks && LaysOut(layout, Tokens(w, mark)) && IsLayout(layout)
    ensures Events(Texts(layout), mark) == Some([Registered(Texts(layout), InfoOf(w))])
  {
    TokensAreTokens(w, mark);
    MergedLine(layout);
    var gaps := GapsIn(layout);
    assert gaps[0] == Inner(layout[0].gaps)[0] == "";
    hide Events, CodeLine, IsWritten, Tokens;
    WrittenLine(w, mark, gaps);
    WrittenEvents(w, mark, gaps[1..], Texts(layout));
  }

  /** A registration written anywhere in a file, in any layout, is recovered. */
  lemma PrintedIsRecovered(w: Written, mark: string, layout: seq<Line>, before: seq<string>, after: seq<string>)
    requires IsLayout(layout) && IsWritten(w) && mark in EndMarks && LaysOut(layout, Tokens(w, mark))
    ensures var file := before + Texts(layout) + after;
            && |before| < |file| && Opens(file[|before|])
            && ProcessOne(file, |before|) == Step([Registered(Texts(layout), InfoOf(w))], Finished, |before| + |Texts(layout)|)
  {
    hide *;
    LaidOut(layout, w, mark);
    LayoutBounds(w, mark, layout);
    LayoutEvents(w, mark, layout);
    var texts := Texts(layout);
    OneIs(texts, mark, Registered(texts, InfoOf(w)));
    StepAt(before, texts, after, mark, Registered(texts, InfoOf(w)));
  }

  /** The lines of one registration, from the one that opens it to the one that ends it. */
  ghost predicate IsOne(texts: seq<string>, mark: string, event: Event)
    requires texts != []
  {
    && Opens(texts[0]) && (forall i :: 0 <= i < |texts| - 1 ==> !Ends(texts[i]))
    && Ends(texts[|texts| - 1]) && EndMark(Strip(texts[|texts| - 1])) == Some(mark)
    && Events(texts, mark) == Some([event])
  }

  lemma OneIs(texts: seq<string>, mark: string, event: Event)
    requires texts != []
    ensures (Opens(texts[0]) && (forall i :: 0 <= i < |texts| - 1 ==> !Ends(texts[i])) && Ends(texts[|texts| - 1])
             && EndMark(Strip(texts[|texts| - 1])) == Some(mark) && Events(texts, mark) == Some([event]))
            <==> IsOne(texts, mark, event)
  {
    hide Opens, Ends, EndMark, Strip, Events;
  }

  lemma StepAt(before: seq<string>, texts: seq<string>, after: seq<string>, mark: string, event: Event)
    requires texts != []
    ensures var file := before + texts + after;
            IsOne(texts, mark, event) ==>
            Opens(file[|before|]) && ProcessOne(file, |before|) == Step([event], Finished, |before| + |texts|)
  {
    hide *;
    if IsOne(texts, mark, event) {
      OneIs(texts, mark, event);
      var file, offset, n := before + texts + after, |before|, |texts|;
      assert file[offset..offset + n] == texts;
      forall i | 0 <= i < n ensures file[offset + i] == texts[i] {}
      assert file[offset + 0] == texts[0] && file[offset + (n - 1)] == texts[n - 1];
      forall i | offset <= i < offset + n - 1 ensures !Ends(file[i]) { assert file[offset + (i - offset)] == texts[i - offset]; }
      LastLineIsFirst(file, offset, offset + n - 1);
      StepOf(file, offset, offset + n - 1, mark, event);
    }
  }

  lemma StepOf(file: seq<string>, offset: nat, k: nat, mark: string, event: Event)
    requires offset <= k < |file|
    ensures LastLine(file, offset) == k && EndMark(Strip(file[k])) == Some(mark) && Events(file[offset..k + 1], mark) == Some([event])
            ==> ProcessOne(file, offset) == Step([event], Finished, k + 1)
  {
    hide Events, EndMark, Strip, LastLine;
  }

  /** Every trimmed text without a comma, a '>' or a capital X can stand as an argument. */
  lemma PlainIsArgument(s: string)
    requires s != "" && Trimmed(s) && Free(s, ',') && Free(s, '>') && Free(s, 'X')
    ensures IsArgument(s)
  {
    hide Tail;
    forall form, p ensures !Occurs(s, Macro(form), p) {
      if Occurs(s, Macro(form), p) {
        OccursHas(s, Macro(form), p, 3);
        assert false;
      }
    }
    FromEnd(s, ")>", 1);
  }

  function OneEach(tokens: seq<string>, gaps: seq<string>, trail: string): seq<Line>
    requires |gaps| == |tokens|
  {
    if tokens == [] then [] else [Line([gaps[0]], [tokens[0]], trail)] + OneEach(tokens[1..], gaps[1..], trail)
  }

  /** A registration may stand on a single line, or with each token on a line of its own. */
  lemma LayoutsExist(tokens: seq<string>, gaps: seq<string>, trail: string)
    requires tokens != [] && |gaps| == |tokens| && Spaces(gaps) && AllSpace(trail)
    ensures LaysOut([Line(gaps, tokens, trail)], tokens)
    ensures LaysOut(OneEach(tokens, gaps, trail), tokens)
  {
    hide *;
    SingleLine(tokens, gaps, trail);
    OnePerLine(tokens, gaps, trail);
    LaidOutBy(OneEach(tokens, gaps, trail), tokens);
  }

  lemma SingleLine(tokens: seq<string>, gaps: seq<string>, trail: string)
    requires tokens != [] && |gaps| == |tokens| && Spaces(gaps) && AllSpace(trail)
    ensures LaysOut([Line(gaps, tokens, trail)], tokens)
  {
    hide AllSpace;
    var layout := [Line(gaps, tokens, trail)];
    assert layout[1..] == [] && tokens + [] == tokens;
    assert TokensIn(layout) == tokens + TokensIn([]);
  }

  lemma LaidOutBy(layout: seq<Line>, tokens: seq<string>)
    requires IsLayout(layout) && layout != [] && TokensIn(layout) == tokens
    requires forall i :: 0 <= i < |layout| ==> |layout[i].tokens| == 1
    ensures LaysOut(layout, tokens)
  {
    hide TokensIn, IsLayout;
  }

  lemma {:induction false} OnePerLine(tokens: seq<string>, gaps: seq<string>, trail: string)
    requires |gaps| == |tokens| && Spaces(gaps) && AllSpace(trail)
    ensures var layout := OneEach(tokens, gaps, trail);
            && |layout| == |tokens| && IsLayout(layout) && TokensIn(layout) == tokens
            && forall i :: 0 <= i < |layout| ==> |layout[i].tokens| == 1
  {
    hide AllSpace;
    if tokens == [] {
    } else {
      assert forall i :: 0 <= i < |gaps[1..]| ==> gaps[1..][i] == gaps[i + 1];
      OnePerLine(tokens[1..], gaps[1..], trail);
      assert OneEach(tokens, gaps, trail)[1..] == OneEach(tokens[1..], gaps[1..], trail);
      assert tokens == [tokens[0]] + tokens[1..];
    }
  }

  // ---------------------------------------------------------------- whole files

  /** A registration in some layout, or any line that does not open one. */
  datatype Item = Kernel(w: Written, mark: string, layout: seq<Line>) | Plainly(line: string)

  ghost predicate IsItem(item: Item) {
    match item
    case Kernel(w, mark, layout) => IsWritten(w) && mark in EndMarks && LaysOut(layout, Tokens(w, mark))
    case Plainly(line) => !Opens(line)
  }

  ghost predicate AreItems(items: seq<Item>) {
    forall i :: 0 <= i < |items| ==> IsItem(items[i])
  }

  ghost function LinesOfItem(item: Item): seq<string>
    requires IsItem(item)
  {
    match item case Kernel(_, _, layout) => Texts(layout) case Plainly(line) => [line]
  }

  ghost function EventOf(item: Item): Event
    requires IsItem(item)
  {
    match item case Kernel(w, _, layout) => Registered(Texts(layout), InfoOf(w)) case Plainly(line) => Other(line)
  }

  ghost function FileOf(items: seq<Item>): seq<string>
    requires AreItems(items)
  {
    if items == [] then [] else LinesOfItem(items[0]) + FileOf(items[1..])
  }

  ghost function EventsOfItems(items: seq<Item>): seq<Event>
    requires AreItems(items)
  {
    if items == [] then [] else [EventOf(items[0])] + EventsOfItems(items[1..])
  }

  /** Reading a whole file gives back the registrations and the other lines that it was made of, in order. */
  lemma {:induction false} FileIsRecovered(items: seq<Item>, before: seq<string>)
    requires AreItems(items)
    ensures Process(before + FileOf(items), |before|) == Outcome(EventsOfItems(items), Finished)
    decreases |items|
  {
    hide IsItem, LinesOfItem, EventOf, Process;
    if items == [] {
      ProcessStep(before + FileOf(items), |before|);
    } else {
      var lines, rest := LinesOfItem(items[0]), FileOf(items[1..]);
      assert before + (lines + rest) == before + lines + rest == (before + lines) + rest;
      ItemIsRecovered(items[0], before, rest);
      FileIsRecovered(items[1..], before + lines);
    }
  }

  lemma ProcessStep(file: seq<string>, offset: nat)
    requires offset == |file|
    ensures Process(file, offset) == Outcome([], Finished)
  {
  }

  lemma ItemIsRecovered(item: Item, before: seq<string>, after: seq<string>)
    requires IsItem(item)
    ensures var file := before + LinesOfItem(item) + after;
            Process(file, |before|) == Followed([EventOf(item)], Process(file, |before| + |LinesOfItem(item)|))
  {
    hide IsWritten, LaysOut, Tokens, Opens, Texts, Process, EndMarks, IsLayout, InfoOf, Followed;
    match item
    case Plainly(line) =>
      ProcessOther(before + [line] + after, |before|);
    case Kernel(w, mark, layout) =>
      LaidOut(layout, w, mark);
      KernelIsRecovered(w, mark, layout, before, after);
  }

  lemma KernelIsRecovered(w: Written, mark: string, layout: seq<Line>, before: seq<string>, after: seq<string>)
    requires IsLayout(layout) && IsWritten(w) && mark in EndMarks && LaysOut(layout, Tokens(w, mark))
    ensures var file := before + Texts(layout) + after;
            Process(file, |before|) ==
            Followed([Registered(Texts(layout), InfoOf(w))], Process(file, |before| + |Texts(layout)|))
  {
    hide *;
    LayoutBounds(w, mark, layout);
    PrintedIsRecovered(w, mark, layout, before, after);
    ProcessOpened(before + Texts(layout) + after, |before|, Registered(Texts(layout), InfoOf(w)), |before| + |Texts(layout)|);
  }

  lemma ProcessOther(file: seq<string>, offset: nat)
    requires offset < |file| && !Opens(file[offset])
    ensures Process(file, offset) == Followed([Other(file[offset])], Process(file, offset + 1))
  {
    hide Opens, ProcessOne;
  }

  lemma ProcessOpened(file: seq<string>, offset: nat, event: Event, next: nat)
    requires offset < next <= |file|
    ensures Opens(file[offset]) && ProcessOne(file, offset) == Step([event], Finished, next) ==>
            Process(file, offset) == Followed([event], Process(file, next))
  {
    hide Opens, ProcessOne;
  }

  // ---------------------------------------------------------------- registrations that are not understood

  lemma {:induction false} NoneRecognized(code: string, forms: seq<Form>)
    requires NoMacro(code)
    ensures Recognize(code, forms) == None
  {
    hide Macro, Find;
    if forms == [] {
    } else {
      FindIsFirst(code, Macro(forms[0]));
      NoneRecognized(code, forms[1..]);
    }
  }

  /**
   Merged lines in which no macro name occurs are handed on one by one as other lines. Merged lines with a
   macro whose last arguments cannot be read raise ValueError, and the processor is told nothing of them.
   */
  lemma NotUnderstood(lines: seq<string>, offset: nat, k: nat)
    requires offset <= k < |lines| && Ends(lines[k]) && forall i :: offset <= i < k ==> !Ends(lines[i])
    ensures var code, mark := CodeLine(lines[offset..k + 1]), EndMark(Strip(lines[k])).value;
            && (NoMacro(code) ==> ProcessOne(lines, offset) == Step(Others(lines[offset..k + 1]), Finished, k + 1))
            && (match Recognize(code, Forms)
                case None => true
                case Some((form, at)) =>
                  Interpret(form, Arguments(code, at, form, mark)) == None ==> ProcessOne(lines, offset) == Step([], ValueError, k + 1))
  {
    LastLineIsFirst(lines, offset, k);
    hide EndMark, Strip, Recognize, Interpret, Arguments, CodeLine, NoMacro, LastLine, Others;
    var code := CodeLine(lines[offset..k + 1]);
    if NoMacro(code) { NoneRecognized(code, Forms); }
  }
}
