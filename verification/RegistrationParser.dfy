/**
 Extraction of kernel registrations from a source file, following
 tools/ci_build/op_registration_utils.py. A file is the list of its lines; every line is handed to
 the processor, as part of a registration or as another line.
 */
module RegistrationParser {
  import opened Text
  import opened Wrappers

  /** What the processor is told. */
  datatype Event =
    | Registered(lines: seq<string>, info: Info)
    | Other(line: string)

  datatype Info = Info(domain: string, operator: string, start: int, end: Option<int>, types: Option<string>)

  /** How processing ends: normally, by an exception, or by the exit of the unterminated-registration check. */
  datatype Status = Finished | IndexError | ValueError | SystemExit

  // ---------------------------------------------------------------- searching text

  function Find(s: string, needle: string): Option<nat> {
    if StartsWith(s, needle) then Some(0)
    else if s == [] then None
    else match Find(s[1..], needle) case None => None case Some(i) => Some(i + 1)
  }

  const EndMarks: seq<string> := [");", ")>", ")>,", ")>,};", ")>};"]

  /** The first end mark that the stripped line ends with. */
  function EndMark(stripped: string): Option<string> {
    if EndsWith(stripped, ");") then Some(");")
    else if EndsWith(stripped, ")>") then Some(")>")
    else if EndsWith(stripped, ")>,") then Some(")>,")
    else if EndsWith(stripped, ")>,};") then Some(")>,};")
    else if EndsWith(stripped, ")>};") then Some(")>};")
    else None
  }

  /** int(s) for text in ASCII: an optional sign, and digits that single underscores may separate. */
  predicate IsDigits(s: string) {
    && s != [] && IsDigit(s[0]) && IsDigit(s[|s| - 1])
    && (forall i :: 0 <= i < |s| ==> IsDigit(s[i]) || s[i] == '_')
    && (forall i :: 0 <= i < |s| - 1 ==> IsDigit(s[i]) || IsDigit(s[i + 1]))
  }

  function OnlyDigits(s: string): string {
    if s == [] then [] else OnlyDigits(s[..|s| - 1]) + if IsDigit(s[|s| - 1]) then [s[|s| - 1]] else []
  }

  function ParseInt(text: string): Option<int> {
    var s := Strip(text);
    if s != [] && s[0] == '-' && IsDigits(s[1..]) then Some(-(NumberOf(OnlyDigits(s[1..])) as int))
    else if s != [] && s[0] == '+' && IsDigits(s[1..]) then Some(NumberOf(OnlyDigits(s[1..])))
    else if IsDigits(s) then Some(NumberOf(OnlyDigits(s)))
    else None
  }

  // ---------------------------------------------------------------- the six macros

  datatype Form = Plain | Typed | Versioned | VersionedTyped | TwoTyped | VersionedTwoTyped

  predicate HasEnd(form: Form) { form.Versioned? || form.VersionedTyped? || form.VersionedTwoTyped? }

  function TypePart(form: Form): string {
    match form
    case Plain | Versioned => ""
    case Typed | VersionedTyped => "_TYPED"
    case TwoTyped | VersionedTwoTyped => "_TWO_TYPED"
  }

  /** Each macro name is "ONNX" and this: from _OPERATOR_KERNEL_CLASS_NAME to _OPERATOR_VERSIONED_TWO_TYPED_KERNEL_CLASS_NAME. */
  function Tail(form: Form): string {
    "_OPERATOR" + (if HasEnd(form) then "_VERSIONED" else "") + TypePart(form) + "_KERNEL_CLASS_NAME"
  }

  function Macro(form: Form): string { "ONNX" + Tail(form) }

  function Stripped(pieces: seq<string>): seq<string> {
    seq(|pieces|, i requires 0 <= i < |pieces| => Strip(pieces[i]))
  }

  /** The stripped arguments between the macro name's parenthesis and the end mark. */
  function Arguments(code: string, at: nat, form: Form, mark: string): seq<string> {
    var trimAt, end := at + |Macro(form)| + 1, |code| - |mark|;
    Stripped(Split(if trimAt <= end then code[trimAt..end] else "", ','))
  }

  function Numbered(domain: string, operator: string, start: string, end: Option<string>, types: Option<string>): Option<Info> {
    if ParseInt(start).None? || (end.Some? && ParseInt(end.value).None?) then None
    else
      Some(Info(domain, operator, ParseInt(start).value, if end.Some? then Some(ParseInt(end.value).value) else None, types))
  }

  /** The trailing arguments of each form; too few of them, or a version that is no number, raise ValueError. */
  function Interpret(form: Form, args: seq<string>): Option<Info> {
    var n := |args|;
    match form
    case Plain => if n < 3 then None else Numbered(args[n - 3], args[n - 1], args[n - 2], None, None)
    case Typed => if n < 4 then None else Numbered(args[n - 4], args[n - 1], args[n - 3], None, Some(args[n - 2]))
    case Versioned => if n < 4 then None else Numbered(args[n - 4], args[n - 1], args[n - 3], Some(args[n - 2]), None)
    case VersionedTyped =>
      if n < 5 then None else Numbered(args[n - 5], args[n - 1], args[n - 4], Some(args[n - 3]), Some(args[n - 2]))
    case TwoTyped =>
      if n < 5 then None else Numbered(args[n - 5], args[n - 1], args[n - 4], None, Some(args[n - 3] + ", " + args[n - 2]))
    case VersionedTwoTyped =>
      if n < 6 then None
      else Numbered(args[n - 6], args[n - 1], args[n - 5], Some(args[n - 4]), Some(args[n - 3] + ", " + args[n - 2]))
  }

  const Forms: seq<Form> := [Plain, Typed, Versioned, VersionedTyped, TwoTyped, VersionedTwoTyped]

  /** The first form whose macro name occurs in the code, and where. */
  function Recognize(code: string, forms: seq<Form>): Option<(Form, nat)> {
    if forms == [] then None
    else match Find(code, Macro(forms[0]))
      case Some(at) => Some((forms[0], at))
      case None => Recognize(code, forms[1..])
  }

  // ---------------------------------------------------------------- one registration

  /** First line from `offset` on that ends with a mark, or the number of lines. */
  function LastLine(lines: seq<string>, offset: nat): (k: nat)
    requires offset <= |lines|
    ensures offset <= k <= |lines|
    ensures k < |lines| ==> Ends(lines[k])
    decreases |lines| - offset
  {
    if offset == |lines| || Ends(lines[offset]) then offset else LastLine(lines, offset + 1)
  }

  predicate Ends(line: string) { EndMark(Strip(line)).Some? }

  lemma {:induction false} LastLineIsFirst(lines: seq<string>, offset: nat, k: nat)
    requires offset <= k < |lines| && Ends(lines[k]) && forall i :: offset <= i < k ==> !Ends(lines[i])
    ensures LastLine(lines, offset) == k
    decreases |lines| - offset
  {
    hide Ends;
    if offset < k { LastLineIsFirst(lines, offset + 1, k); }
  }

  function CodeLine(lines: seq<string>): string {
    if lines == [] then "" else Strip(lines[0]) + CodeLine(lines[1..])
  }

  function Others(lines: seq<string>): seq<Event> {
    if lines == [] then [] else [Other(lines[0])] + Others(lines[1..])
  }

  /** What the processor is told about a merged registration; None stands for a ValueError. */
  function Events(lines: seq<string>, mark: string): Option<seq<Event>> {
    var code := CodeLine(lines);
    match Recognize(code, Forms)
    case None => Some(Others(lines))
    case Some((form, at)) =>
      match Interpret(form, Arguments(code, at, form, mark))
      case None => None
      case Some(info) => Some([Registered(lines, info)])
  }

  const Opening := "BuildKernelCreateInfo<ONNX"

  datatype Outcome = Outcome(events: seq<Event>, status: Status)

  datatype Step = Step(events: seq<Event>, status: Status, next: nat)

  /** Merging and interpreting the registration that opens at line `offset`. */
  function ProcessOne(lines: seq<string>, offset: nat): (s: Step)
    requires offset < |lines|
    ensures s.status.Finished? ==> offset < s.next <= |lines|
  {
    var k := LastLine(lines, offset);
    if k == |lines| then Step([], IndexError, k)
    else
      match Events(lines[offset..k + 1], EndMark(Strip(lines[k])).value)
      case None => Step([], ValueError, k + 1)
      case Some(events) => Step(events, Finished, k + 1)
  }

  predicate Opens(line: string) { StartsWith(Strip(line), Opening) }

  /** Processing from line `offset` on. */
  function Process(lines: seq<string>, offset: nat): Outcome
    requires offset <= |lines|
    decreases |lines| - offset
  {
    if offset == |lines| then Outcome([], Finished)
    else if !Opens(lines[offset]) then Followed([Other(lines[offset])], Process(lines, offset + 1))
    else
      var one := ProcessOne(lines, offset);
      if one.status.Finished? then Followed(one.events, Process(lines, one.next))
      else Outcome(one.events, one.status)
  }

  function Followed(events: seq<Event>, rest: Outcome): Outcome {
    Outcome(events + rest.events, rest.status)
  }

  // ---------------------------------------------------------------- the processing methods

  class Processor {
    var events: seq<Event>

    constructor ()
      ensures events == []
    {
      events := [];
    }

    method ProcessRegistration(lines: seq<string>, info: Info)
      modifies this
      ensures events == old(events) + [Registered(lines, info)]
    {
      events := events + [Registered(lines, info)];
    }

    method ProcessOtherLine(line: string)
      modifies this
      ensures events == old(events) + [Other(line)]
    {
      events := events + [Other(line)];
    }
  }

  /**
   Collects the lines up to the first one that ends with a mark. The exit for an unterminated
   registration is never taken: the index runs out of range first.
   */
  method MergeLines(lines: seq<string>, offset: nat)
    returns (linesToProcess: seq<string>, endMark: string, at: nat, status: Status)
    requires offset < |lines|
    ensures var k := LastLine(lines, offset);
            if k == |lines| then status == IndexError
            else status == Finished && at == k && linesToProcess == lines[offset..k + 1]
                 && EndMark(Strip(lines[k])) == Some(endMark)
  {
    hide EndMark, Strip;
    linesToProcess := [];
    at := offset;
    endMark := "";
    while true
      invariant offset <= at <= |lines|
      invariant LastLine(lines, offset) == LastLine(lines, at)
      invariant linesToProcess == lines[offset..at]
      decreases |lines| - at
    {
      if at >= |lines| {
        status := IndexError;
        return;
      }
      linesToProcess := linesToProcess + [lines[at]];
      var mark := EndMark(Strip(lines[at]));
      if mark.Some? {
        endMark := mark.value;
        status := Finished;
        return;
      }
      at := at + 1;
      if at > |lines| {
        status := SystemExit;
        return;
      }
    }
  }

  method ProcessLines(lines: seq<string>, offset: nat, processor: Processor) returns (next: nat, status: Status)
    requires offset < |lines|
    modifies processor
    ensures var one := ProcessOne(lines, offset);
            && status == one.status
            && processor.events == old(processor.events) + one.events
            && (status.Finished? ==> next == one.next)
  {
    hide EndMark, Strip, Recognize, Interpret, Arguments, CodeLine;
    var linesToProcess, endMark, at, merged := MergeLines(lines, offset);
    assert processor.events == old(processor.events) + [];
    if !merged.Finished? {
      return at, merged;
    }
    var codeLine := CodeLine(linesToProcess);
    var form := Recognize(codeLine, Forms);
    if form.Some? {
      var info := Interpret(form.value.0, Arguments(codeLine, form.value.1, form.value.0, endMark));
      if info.None? {
        return at + 1, ValueError;
      }
      processor.ProcessRegistration(linesToProcess, info.value);
    } else {
      for i := 0 to |linesToProcess|
        invariant processor.events + Others(linesToProcess[i..]) == old(processor.events) + Others(linesToProcess)
      {
        OthersStep(processor.events, linesToProcess, i);
        processor.ProcessOtherLine(linesToProcess[i]);
      }
    }
    return at + 1, Finished;
  }

  lemma OthersStep(events: seq<Event>, lines: seq<string>, i: nat)
    requires i < |lines|
    ensures events + Others(lines[i..]) == events + [Other(lines[i])] + Others(lines[i + 1..])
  {
    assert lines[i..][1..] == lines[i + 1..];
  }

  method ProcessKernelRegistrationFile(lines: seq<string>, processor: Processor) returns (status: Status)
    modifies processor
    ensures status == Process(lines, 0).status
    ensures processor.events == old(processor.events) + Process(lines, 0).events
  {
    hide Opens, ProcessOne;
    var offset := 0;
    while offset < |lines|
      invariant offset <= |lines|
      invariant old(processor.events) + Process(lines, 0).events == processor.events + Process(lines, offset).events
      invariant Process(lines, 0).status == Process(lines, offset).status
    {
      ghost var before := processor.events;
      if Opens(lines[offset]) {
        var next, one := ProcessLines(lines, offset, processor);
        if !one.Finished? {
          return one;
        }
        FollowedAppends(before, ProcessOne(lines, offset).events, Process(lines, next));
        offset := next;
      } else {
        processor.ProcessOtherLine(lines[offset]);
        FollowedAppends(before, [Other(lines[offset])], Process(lines, offset + 1));
        offset := offset + 1;
      }
    }
    return Finished;
  }

  lemma FollowedAppends(before: seq<Event>, events: seq<Event>, rest: Outcome)
    ensures before + Followed(events, rest).events == before + events + rest.events
  {
  }

  // ---------------------------------------------------------------- no line is lost or repeated

  function LinesOf(events: seq<Event>): seq<string> {
    if events == [] then []
    else (match events[0] case Registered(lines, _) => lines case Other(line) => [line]) + LinesOf(events[1..])
  }

  lemma {:induction false} LinesOfAppend(a: seq<Event>, b: seq<Event>)
    ensures LinesOf(a + b) == LinesOf(a) + LinesOf(b)
  {
    if a == [] {
      assert a + b == b;
    } else {
      assert (a + b)[1..] == a[1..] + b;
      LinesOfAppend(a[1..], b);
    }
  }

  lemma {:induction false} LinesOfOthers(lines: seq<string>)
    ensures LinesOf(Others(lines)) == lines
  {
    if lines == [] {
    } else {
      LinesOfOthers(lines[1..]);
      assert Others(lines)[1..] == Others(lines[1..]);
    }
  }

  lemma OneKeepsLines(lines: seq<string>, offset: nat)
    requires offset < |lines|
    ensures var one := ProcessOne(lines, offset); one.status.Finished? ==> LinesOf(one.events) == lines[offset..one.next]
  {
    hide EndMark, Strip, Recognize, Interpret, Arguments, CodeLine;
    var one, k := ProcessOne(lines, offset), LastLine(lines, offset);
    if one.status.Finished? {
      LinesOfOthers(lines[offset..k + 1]);
      if one.events != Others(lines[offset..k + 1]) {
        assert |one.events| == 1 && one.events[1..] == [];
      }
    }
  }

  /**
   The lines handed to the processor are, in order, a first part of the file, and the whole file
   when processing finishes.
   */
  lemma {:induction false} LinesAreConserved(lines: seq<string>, offset: nat)
    requires offset <= |lines|
    ensures LinesOf(Process(lines, offset).events) <= lines[offset..]
    ensures Process(lines, offset).status.Finished? ==> LinesOf(Process(lines, offset).events) == lines[offset..]
    ensures Process(lines, offset).status != SystemExit
    decreases |lines| - offset
  {
    hide Opens, ProcessOne, LinesOf;
    if offset == |lines| {
      NoLines();
    } else if !Opens(lines[offset]) {
      LinesAreConserved(lines, offset + 1);
      OtherLine(lines[offset]);
      assert lines[offset..offset + 1] == [lines[offset]];
      Conserved(lines, offset, offset + 1, [Other(lines[offset])], Process(lines, offset + 1));
    } else {
      var one := ProcessOne(lines, offset);
      OneEnds(lines, offset);
      if one.status.Finished? {
        OneKeepsLines(lines, offset);
        LinesAreConserved(lines, one.next);
        Conserved(lines, offset, one.next, one.events, Process(lines, one.next));
      } else {
        NoLines();
      }
    }
  }

  lemma NoLines()
    ensures LinesOf([]) == []
  {
  }

  lemma Conserved(lines: seq<string>, from: nat, next: nat, events: seq<Event>, rest: Outcome)
    requires from <= next <= |lines| && LinesOf(events) == lines[from..next] && LinesOf(rest.events) <= lines[next..]
    ensures LinesOf(Followed(events, rest).events) <= lines[from..]
    ensures LinesOf(rest.events) == lines[next..] ==> LinesOf(Followed(events, rest).events) == lines[from..]
  {
    hide LinesOf;
    LinesOfAppend(events, rest.events);
    assert lines[from..] == lines[from..next] + lines[next..];
  }

  lemma OtherLine(line: string)
    ensures LinesOf([Other(line)]) == [line]
  {
    assert [Other(line)][1..] == [];
  }

  lemma OneEnds(lines: seq<string>, offset: nat)
    requires offset < |lines|
    ensures var one := ProcessOne(lines, offset); one.status != SystemExit && (!one.status.Finished? ==> one.events == [])
  {
    hide EndMark, Strip, Recognize, Interpret, Arguments, CodeLine;
  }

  // ---------------------------------------------------------------- which lines open, which texts are numbers

  /** A line opens a registration exactly when what is left of it between white space starts with the marker. */
  lemma OpensExactly(before: string, text: string, after: string)
    requires AllSpace(before) && AllSpace(after) && Trimmed(text)
    ensures Opens(before + text + after) <==> StartsWith(text, "BuildKernelCreateInfo<ONNX")
  {
    hide Strip;
    StripPadding(before, text, after);
  }

  /** A line ends one exactly when what is left of it ends with one of the five marks. */
  lemma EndsExactly(before: string, text: string, after: string)
    requires AllSpace(before) && AllSpace(after) && Trimmed(text)
    ensures Ends(before + text + after) <==>
            EndsWith(text, ");") || EndsWith(text, ")>") || EndsWith(text, ")>,") || EndsWith(text, ")>,};") || EndsWith(text, ")>};")
  {
    hide Strip;
    StripPadding(before, text, after);
  }

  lemma {:induction false} NoLastLine(lines: seq<string>, offset: nat)
    requires offset <= |lines| && forall i :: offset <= i < |lines| ==> !Ends(lines[i])
    ensures LastLine(lines, offset) == |lines|
    decreases |lines| - offset
  {
    hide Ends;
    if offset == |lines| {
    } else {
      NoLastLine(lines, offset + 1);
    }
  }

  /** A registration that no line ends raises IndexError, and the processor is told nothing of it. */
  lemma UnterminatedRaises(lines: seq<string>, offset: nat)
    requires offset < |lines| && Opens(lines[offset]) && forall i :: offset <= i < |lines| ==> !Ends(lines[i])
    ensures Process(lines, offset) == Outcome([], IndexError)
  {
    hide Opens, Ends, LastLine;
    NoLastLine(lines, offset);
  }

  /** Groups of digits between single underscores. */
  ghost predicate Grouped(s: string) {
    forall i :: 0 <= i < |Split(s, '_')| ==> Split(s, '_')[i] != "" && AllDigits(Split(s, '_')[i])
  }

  lemma DigitsStep(s: string)
    requires |s| > 1
    ensures IsDigits(s) <==> IsDigit(s[0]) && (if s[1] == '_' then IsDigits(s[2..]) else IsDigits(s[1..]))
  {
    var t := s[1..];
    assert t[|t| - 1] == s[|s| - 1] && forall i :: 0 <= i < |t| ==> t[i] == s[i + 1];
    if s[1] == '_' {
      var u := s[2..];
      assert |u| > 0 ==> u[|u| - 1] == s[|s| - 1];
      assert forall i :: 0 <= i < |u| ==> u[i] == s[i + 2];
      if IsDigit(s[0]) && IsDigits(u) {
        forall i | 0 <= i < |s| ensures IsDigit(s[i]) || s[i] == '_' { if i >= 2 { assert s[i] == u[i - 2]; } }
        forall i | 0 <= i < |s| - 1 ensures IsDigit(s[i]) || IsDigit(s[i + 1]) {
          if i >= 2 { assert s[i] == u[i - 2] && s[i + 1] == u[i - 1]; } else { assert s[2] == u[0]; }
        }
      }
      if IsDigits(s) {
        assert IsDigit(s[2]) by { assert IsDigit(s[1]) || IsDigit(s[2]); }
        forall i | 0 <= i < |u| - 1 ensures IsDigit(u[i]) || IsDigit(u[i + 1]) { assert IsDigit(s[i + 2]) || IsDigit(s[i + 3]); }
      }
    } else {
      if IsDigit(s[0]) && IsDigits(t) {
        forall i | 0 <= i < |s| ensures IsDigit(s[i]) || s[i] == '_' { if i >= 1 { assert s[i] == t[i - 1]; } }
        forall i | 0 <= i < |s| - 1 ensures IsDigit(s[i]) || IsDigit(s[i + 1]) {
          if i >= 1 { assert s[i] == t[i - 1] && s[i + 1] == t[i]; }
        }
      }
      if IsDigits(s) {
        forall i | 0 <= i < |t| - 1 ensures IsDigit(t[i]) || IsDigit(t[i + 1]) { assert IsDigit(s[i + 1]) || IsDigit(s[i + 2]); }
      }
    }
  }

  lemma GroupedStep(s: string)
    requires |s| > 1
    ensures Grouped(s) <==> IsDigit(s[0]) && (if s[1] == '_' then Grouped(s[2..]) else Grouped(s[1..]))
  {
    hide Split;
    var t := s[1..];
    SplitStep(s, t, '_');
    var pieces, rest := Split(s, '_'), Split(t, '_');
    if s[0] == '_' {
      assert pieces[0] == "";
    } else if s[1] == '_' {
      SplitStep(t, s[2..], '_');
      var more := Split(s[2..], '_');
      assert rest == [""] + more && pieces == [[s[0]] + ""] + more;
      DigitFirst(s[0], "");
      SameButFirst(pieces, [s[0]] + "", more);
    } else {
      SplitStep(t, s[2..], '_');
      assert rest[0] == [t[0]] + Split(s[2..], '_')[0];
      assert pieces == [[s[0]] + rest[0]] + rest[1..];
      SameButFirst(pieces, [s[0]] + rest[0], rest[1..]);
      SameButFirst(rest, rest[0], rest[1..]);
      DigitFirst(s[0], rest[0]);
    }
  }

  lemma DigitFirst(c: char, rest: string)
    ensures AllDigits([c] + rest) <==> IsDigit(c) && AllDigits(rest)
  {
    var s := [c] + rest;
    assert s[0] == c && forall k :: 0 <= k < |rest| ==> s[k + 1] == rest[k];
    if AllDigits(s) {
      forall k | 0 <= k < |rest| ensures IsDigit(rest[k]) { assert s[k + 1] == rest[k]; }
    }
  }

  lemma SameButFirst(pieces: seq<string>, first: string, rest: seq<string>)
    requires pieces == [first] + rest
    ensures (forall i :: 0 <= i < |pieces| ==> pieces[i] != "" && AllDigits(pieces[i])) <==>
            first != "" && AllDigits(first) && forall i :: 0 <= i < |rest| ==> rest[i] != "" && AllDigits(rest[i])
  {
    hide AllDigits;
    assert forall i :: 0 <= i < |rest| ==> pieces[i + 1] == rest[i];
    assert pieces[0] == first;
    if forall i :: 0 <= i < |pieces| ==> pieces[i] != "" && AllDigits(pieces[i]) {
      forall i | 0 <= i < |rest| ensures rest[i] != "" && AllDigits(rest[i]) { assert pieces[i + 1] == rest[i]; }
    }
  }

  /** The digits of an integer are groups between single underscores. */
  lemma {:induction false} DigitsAreGrouped(s: string)
    ensures IsDigits(s) <==> Grouped(s)
    decreases |s|
  {
    if |s| > 1 {
      DigitsStep(s);
      GroupedStep(s);
      if s[1] == '_' { DigitsAreGrouped(s[2..]); } else { DigitsAreGrouped(s[1..]); }
    } else {
      ShortGroups(s);
    }
  }

  lemma ShortGroups(s: string)
    requires |s| <= 1
    ensures Grouped(s) <==> s != "" && IsDigit(s[0])
  {
    assert Split("", '_') == [""];
    hide Split;
    if s == "" {
      assert Split(s, '_')[0] == "";
    } else {
      var c := s[0];
      SplitStep(s, "", '_');
      if c == '_' {
        assert Split(s, '_')[0] == "";
      } else {
        DigitFirst(c, "");
        SameButFirst(Split(s, '_'), [c] + "", []);
      }
    }
  }

  /** What the digits denote: those of each group, one group after the other. */
  lemma {:induction false} OnlyDigitsAppend(a: string, b: string)
    ensures OnlyDigits(a + b) == OnlyDigits(a) + OnlyDigits(b)
    ensures AllDigits(b) ==> OnlyDigits(b) == b
    ensures OnlyDigits("_") == ""
  {
    if b == [] {
      assert a + b == a;
    } else {
      var c := b[..|b| - 1];
      assert (a + b)[..|a + b| - 1] == a + c;
      OnlyDigitsAppend(a, c);
    }
  }

  /**
   Amid white space and after an optional sign, a text is read exactly when it is groups of digits between
   single underscores, and as the signed number of its digits.
   */
  lemma IntegersExactly(before: string, sign: string, s: string, after: string)
    requires AllSpace(before) && AllSpace(after) && (sign == "" || sign == "+" || sign == "-")
    requires s != "" && s[0] != '+' && s[0] != '-' && !IsSpace(s[0]) && !IsSpace(s[|s| - 1])
    ensures ParseInt(before + (sign + s) + after) ==
            if !Grouped(s) then None
            else if sign == "-" then Some(-(NumberOf(OnlyDigits(s)) as int)) else Some(NumberOf(OnlyDigits(s)))
  {
    hide Strip, NumberOf, OnlyDigits, Grouped;
    var text := sign + s;
    assert text[|text| - 1] == s[|s| - 1] && (sign == "" ==> text == s) && (sign != "" ==> text[0] == sign[0] && text[1..] == s);
    StripPadding(before, text, after);
    DigitsAreGrouped(s);
  }
}
