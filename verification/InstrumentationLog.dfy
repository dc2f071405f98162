/**
 Reading the output of `am instrument -w -r`, following
 qcom/scripts/all/instrumentation_to_junit_xml.py. A log is the list of its lines; white space, word
 characters and digits are those of ASCII.
 */
module InstrumentationLog {
  import opened Text
  import opened Wrappers

  datatype Status = Passed | Failed | Errored | Skipped

  datatype TestCase = TestCase(className: string, name: string, status: Status, stack: Option<string>)

  // ---------------------------------------------------------------- the two line patterns

  const Head := "INSTRUMENTATION_"
  const KvPrefix := Head + "STATUS:"
  const CodePrefix := Head + "STATUS_CODE:"

  predicate IsKeyChar(c: char) { 'a' <= c <= 'z' || 'A' <= c <= 'Z' || IsDigit(c) || c == '_' || c == '.' }

  function KeyLength(s: string): (n: nat)
    ensures n <= |s|
  {
    if s != [] && IsKeyChar(s[0]) then 1 + KeyLength(s[1..]) else 0
  }

  /** The key and the value of a status line. */
  function KeyValue(line: string): Option<(string, string)> {
    if !StartsWith(line, KvPrefix) then None
    else
      var rest := line[|KvPrefix|..];
      var body := StripLeft(rest);
      var n := KeyLength(body);
      if |body| == |rest| || n == 0 || n == |body| || body[n] != '=' then None else Some((body[..n], body[n + 1..]))
  }

  function StatusCode(line: string): Option<int> {
    if !StartsWith(line, CodePrefix) then None
    else
      var s := Strip(line[|CodePrefix|..]);
      if s != [] && s[0] == '-' && s[1..] != [] && AllDigits(s[1..]) then Some(-(NumberOf(s[1..]) as int))
      else if s != [] && AllDigits(s) then Some(NumberOf(s))
      else None
  }

  predicate IsSummary(line: string) { StartsWith(line, Head + "RESULT:") || StartsWith(line, Head + "CODE:") }

  // ---------------------------------------------------------------- one line after the other

  type Fields = map<string, string>

  datatype Block = Block(fields: Fields, active: Option<string>)

  const Empty := Block(map[], None)

  /** What a line other than a status-code line does to the fields. */
  function Collect(b: Block, line: string): Block {
    if IsSummary(line) then b.(active := None)
    else match KeyValue(line)
      case Some((key, value)) => Block(b.fields[key := value], Some(key))
      case None =>
        if b.active.None? then b
        else
          var existing := if b.active.value in b.fields then b.fields[b.active.value] else "";
          b.(fields := b.fields[b.active.value := if existing != "" then existing + ['\n'] + line else line])
  }

  function FieldOr(fields: Fields, key: string, default: string): string {
    if key in fields && fields[key] != "" then fields[key] else default
  }

  function StackOf(fields: Fields): Option<string> {
    if "stack" in fields && Strip(fields["stack"]) != "" then Some(Strip(fields["stack"])) else None
  }

  function CodeText(code: int): string { if code < 0 then "-" + Decimal(-code) else Decimal(code) }

  /** The case that a status code completes, if any. */
  function Finalized(fields: Fields, code: int): seq<TestCase> {
    if code == 1 then []
    else
      var stack := StackOf(fields);
      var status := if code == 0 then Passed else if code == -2 then Failed else if code == -3 then Skipped else Errored;
      var known := -3 <= code <= 0;
      [TestCase(FieldOr(fields, "class", "UnknownClass"), FieldOr(fields, "test", "unknownTest"), status,
                if known || stack.Some? then stack else Some("Unknown INSTRUMENTATION_STATUS_CODE: " + CodeText(code)))]
  }

  datatype State = State(cases: seq<TestCase>, block: Block)

  function Step(s: State, line: string): State {
    match StatusCode(line)
    case Some(code) => State(s.cases + Finalized(s.block.fields, code), Empty)
    case None => s.(block := Collect(s.block, line))
  }

  function Parsed(s: State, lines: seq<string>): State
    decreases |lines|
  {
    if lines == [] then s else Parsed(Step(s, lines[0]), lines[1..])
  }

  method Parse(lines: seq<string>) returns (cases: seq<TestCase>)
    ensures cases == Parsed(State([], Empty), lines).cases
  {
    hide StatusCode, KeyValue, IsSummary, Finalized;
    cases := [];
    var fields: Fields := map[];
    var activeKey: Option<string> := None;
    for i := 0 to |lines|
      invariant Parsed(State(cases, Block(fields, activeKey)), lines[i..]) == Parsed(State([], Empty), lines)
    {
      var line := lines[i];
      ParsedStep(State(cases, Block(fields, activeKey)), lines, i);
      var code := StatusCode(line);
      if code.Some? {
        cases := cases + Finalized(fields, code.value);
        fields := map[];
        activeKey := None;
      } else if IsSummary(line) {
        activeKey := None;
      } else {
        var m := KeyValue(line);
        if m.Some? {
          var (key, value) := m.value;
          fields := fields[key := value];
          activeKey := Some(key);
        } else if activeKey.Some? {
          var existing := if activeKey.value in fields then fields[activeKey.value] else "";
          fields := fields[activeKey.value := if existing != "" then existing + ['\n'] + line else line];
        }
      }
    }
  }

  lemma ParsedStep(s: State, lines: seq<string>, i: nat)
    requires i < |lines|
    ensures Parsed(s, lines[i..]) == Parsed(Step(s, lines[i]), lines[i + 1..])
  {
    assert lines[i..][1..] == lines[i + 1..];
  }

  // ---------------------------------------------------------------- block by block

  /** Lines up to the first status-code line. */
  function FirstCode(lines: seq<string>): (k: nat)
    ensures k <= |lines|
  {
    if lines == [] || StatusCode(lines[0]).Some? then 0 else 1 + FirstCode(lines[1..])
  }

  lemma {:induction false} NoneBeforeFirst(lines: seq<string>)
    ensures forall i :: 0 <= i < FirstCode(lines) ==> StatusCode(lines[i]).None?
    ensures FirstCode(lines) < |lines| ==> StatusCode(lines[FirstCode(lines)]).Some?
  {
    hide StatusCode;
    if lines != [] && StatusCode(lines[0]).None? {
      NoneBeforeFirst(lines[1..]);
      forall i | 0 <= i < FirstCode(lines) ensures StatusCode(lines[i]).None? {
        if i > 0 { assert lines[i] == lines[1..][i - 1]; }
      }
    }
  }

  function Collected(b: Block, lines: seq<string>): Block
    decreases |lines|
  {
    if lines == [] then b else Collected(Collect(b, lines[0]), lines[1..])
  }

  /** The cases read block by block: each from the lines between two status-code lines and nothing else. */
  function Cases(lines: seq<string>): seq<TestCase>
    decreases |lines|
  {
    var k := FirstCode(lines);
    NoneBeforeFirst(lines);
    if k == |lines| then []
    else Finalized(Collected(Empty, lines[..k]).fields, StatusCode(lines[k]).value) + Cases(lines[k + 1..])
  }

  lemma {:induction false} ParsedBlock(s: State, lines: seq<string>, k: nat)
    requires k <= |lines| && forall i :: 0 <= i < k ==> StatusCode(lines[i]).None?
    ensures Parsed(s, lines) == Parsed(State(s.cases, Collected(s.block, lines[..k])), lines[k..])
    decreases k
  {
    hide StatusCode, Collect;
    if k == 0 {
      assert lines[..0] == [] && lines[0..] == lines;
    } else {
      ParsedBlock(Step(s, lines[0]), lines[1..], k - 1);
      assert lines[1..][k - 1..] == lines[k..] && lines[..k][1..] == lines[1..][..k - 1];
    }
  }

  /** The line-by-line reader finds exactly the cases of the blocks. */
  lemma {:induction false} ParsedByBlocks(cases: seq<TestCase>, lines: seq<string>)
    ensures Parsed(State(cases, Empty), lines).cases == cases + Cases(lines)
    decreases |lines|
  {
    hide StatusCode, Finalized, Collected;
    var k := FirstCode(lines);
    NoneBeforeFirst(lines);
    ParsedBlock(State(cases, Empty), lines, k);
    if k < |lines| {
      var found := Finalized(Collected(Empty, lines[..k]).fields, StatusCode(lines[k]).value);
      assert lines[k..][0] == lines[k] && lines[k..][1..] == lines[k + 1..];
      ParsedByBlocks(cases + found, lines[k + 1..]);
      assert cases + found + Cases(lines[k + 1..]) == cases + (found + Cases(lines[k + 1..]));
    }
  }

  lemma FirstCodeIs(lines: seq<string>, k: nat)
    requires k <= |lines| && (k < |lines| ==> StatusCode(lines[k]).Some?) && forall i :: 0 <= i < k ==> StatusCode(lines[i]).None?
    ensures FirstCode(lines) == k
  {
    hide StatusCode, FirstCode;
    NoneBeforeFirst(lines);
  }

  /** What stands before a status-code line has no influence on what follows it. */
  lemma {:induction false} CasesAppend(a: seq<string>, b: seq<string>)
    requires a != [] ==> StatusCode(a[|a| - 1]).Some?
    ensures Cases(a + b) == Cases(a) + Cases(b)
    decreases |a|
  {
    hide Finalized, Collected, Cases, FirstCode, StatusCode;
    if a == [] {
      NoCases();
      assert a + b == b;
    } else {
      var k := FirstCode(a);
      NoneBeforeFirst(a);
      FirstCodeIs(a + b, k);
      assert (a + b)[..k] == a[..k] && (a + b)[k + 1..] == a[k + 1..] + b;
      CasesAppend(a[k + 1..], b);
      CasesStep(a, k);
      CasesStep(a + b, k);
    }
  }

  lemma NoCases()
    ensures Cases([]) == []
  {
    hide StatusCode;
  }

  lemma CasesStep(lines: seq<string>, k: nat)
    requires FirstCode(lines) == k < |lines| && StatusCode(lines[k]).Some?
    ensures Cases(lines) == Finalized(Collected(Empty, lines[..k]).fields, StatusCode(lines[k]).value) + Cases(lines[k + 1..])
  {
    hide StatusCode, Finalized, Collected;
  }

  function CodesOtherThanStart(lines: seq<string>): nat {
    if lines == [] then 0
    else
      (if StatusCode(lines[0]).Some? && StatusCode(lines[0]).value != 1 then 1 else 0) + CodesOtherThanStart(lines[1..])
  }

  lemma {:induction false} CodesSkip(lines: seq<string>, k: nat)
    requires k <= |lines| && forall i :: 0 <= i < k ==> StatusCode(lines[i]).None?
    ensures CodesOtherThanStart(lines) == CodesOtherThanStart(lines[k..])
    decreases k
  {
    hide StatusCode;
    if k > 0 {
      CodesSkip(lines[1..], k - 1);
      assert lines[1..][k - 1..] == lines[k..];
    } else {
      assert lines[0..] == lines;
    }
  }

  /** One case for each status-code line other than a start. */
  lemma {:induction false} OneCasePerCode(lines: seq<string>)
    ensures |Cases(lines)| == CodesOtherThanStart(lines)
    decreases |lines|
  {
    hide StatusCode, Collected;
    var k := FirstCode(lines);
    NoneBeforeFirst(lines);
    CodesSkip(lines, k);
    if k < |lines| {
      assert lines[k..][0] == lines[k] && lines[k..][1..] == lines[k + 1..];
      OneCasePerCode(lines[k + 1..]);
    }
  }

  // ---------------------------------------------------------------- the counts of the report

  function Count(cases: seq<TestCase>, status: Status): nat {
    if cases == [] then 0 else (if cases[0].status == status then 1 else 0) + Count(cases[1..], status)
  }

  lemma {:induction false} CountsAddUp(cases: seq<TestCase>)
    ensures |cases| == Count(cases, Passed) + Count(cases, Failed) + Count(cases, Errored) + Count(cases, Skipped)
  {
    if cases == [] {
    } else {
      CountsAddUp(cases[1..]);
    }
  }

  // ---------------------------------------------------------------- writing a log and reading it back

  /** A finished test as the runner reports it; the stack as its lines. */
  datatype Report = Report(className: string, name: string, status: Status, stack: seq<string>)

  function KvLine(key: string, value: string): string { KvPrefix + ([' '] + (key + (['='] + value))) }

  function CodeLine(code: int): string { CodePrefix + ([' '] + CodeText(code)) }

  function CodeOf(status: Status): int {
    match status case Passed => 0 case Errored => -1 case Failed => -2 case Skipped => -3
  }

  function Named(r: Report): seq<string> { [KvLine("class", r.className), KvLine("test", r.name)] }

  function StackLines(stack: seq<string>): seq<string> {
    if stack == [] then [] else [KvLine("stack", stack[0])] + stack[1..]
  }

  function StartBlock(r: Report): seq<string> { Named(r) + [CodeLine(1)] }

  function EndBlock(r: Report): seq<string> { Named(r) + StackLines(r.stack) + [CodeLine(CodeOf(r.status))] }

  /** Each test reports its start and later its outcome. */
  function Log(reports: seq<Report>): seq<string> {
    if reports == [] then [] else StartBlock(reports[0]) + EndBlock(reports[0]) + Log(reports[1..])
  }

  function CaseOf(r: Report): TestCase {
    TestCase(r.className, r.name, r.status, if r.stack == [] then None else Some(Join(r.stack, '\n')))
  }

  function CasesOf(reports: seq<Report>): seq<TestCase> {
    if reports == [] then [] else [CaseOf(reports[0])] + CasesOf(reports[1..])
  }

  predicate IsText(line: string) { StatusCode(line).None? && !IsSummary(line) && KeyValue(line).None? }

  predicate IsStack(stack: seq<string>) {
    stack != [] ==> Join(stack, '\n') != "" && Trimmed(Join(stack, '\n')) && forall i :: 1 <= i < |stack| ==> IsText(stack[i])
  }

  predicate IsReport(r: Report) { r.className != "" && r.name != "" && IsStack(r.stack) }

  predicate IsKey(key: string) { key != "" && forall i :: 0 <= i < |key| ==> IsKeyChar(key[i]) }

  lemma {:induction false} KeyLengthIs(key: string, rest: string)
    requires (forall i :: 0 <= i < |key| ==> IsKeyChar(key[i])) && (rest != "" ==> !IsKeyChar(rest[0]))
    ensures KeyLength(key + rest) == |key|
  {
    if key == "" {
      assert key + rest == rest;
    } else {
      assert (key + rest)[1..] == key[1..] + rest;
      KeyLengthIs(key[1..], rest);
    }
  }

  lemma KvLineRead(key: string, value: string)
    requires IsKey(key)
    ensures KeyValue(KvLine(key, value)) == Some((key, value))
  {
    hide *;
    var body := key + (['='] + value);
    KvLineParts(key, value, body);
    BodyParts(key, value, body);
    KeyValueIs(KvLine(key, value), [' '] + body, body, |key|);
  }

  lemma KvLineParts(key: string, value: string, body: string)
    requires body == key + (['='] + value)
    ensures var line := KvLine(key, value); StartsWith(line, KvPrefix) && line[|KvPrefix|..] == [' '] + body
  {
    hide KvPrefix;
  }

  lemma BodyParts(key: string, value: string, body: string)
    requires IsKey(key) && body == key + (['='] + value)
    ensures StripLeft([' '] + body) == body && KeyLength(body) == |key|
    ensures 0 < |key| < |body| && body[..|key|] == key && body[|key|] == '=' && body[|key| + 1..] == value
  {
    assert key != "" && IsKeyChar(key[0]) && (forall i :: 0 <= i < |key| ==> IsKeyChar(key[i]));
    hide StripLeft, KeyLength, IsKey;
    KeyLengthIs(key, ['='] + value);
    BodySlices(key, value, body);
    StripLeftPadding([' '], body);
  }

  lemma BodySlices(key: string, value: string, body: string)
    requires key != "" && body == key + (['='] + value)
    ensures |key| < |body| && body[0] == key[0] && body[..|key|] == key && body[|key|] == '=' && body[|key| + 1..] == value
  {
  }

  lemma KeyValueIs(line: string, rest: string, body: string, n: nat)
    requires StartsWith(line, KvPrefix) && line[|KvPrefix|..] == rest && StripLeft(rest) == body && |body| < |rest|
    requires KeyLength(body) == n && 0 < n < |body| && body[n] == '='
    ensures KeyValue(line) == Some((body[..n], body[n + 1..]))
  {
    hide KvPrefix, StripLeft, KeyLength;
  }

  lemma KvLineIsNoOther(key: string, value: string)
    ensures StatusCode(KvLine(key, value)).None? && !IsSummary(KvLine(key, value))
  {
    var line := KvLine(key, value);
    assert |Head| == 16 && line[16] == 'S' && line[22] == ':';
    assert CodePrefix[22] == '_' && (Head + "RESULT:")[16] == 'R' && (Head + "CODE:")[16] == 'C';
    Prefixed(line, CodePrefix, 22);
    Prefixed(line, Head + "RESULT:", 16);
    Prefixed(line, Head + "CODE:", 16);
    hide *;
    NoCode(line);
    NoSummary(line);
  }

  lemma Prefixed(s: string, prefix: string, k: nat)
    requires k < |prefix| && k < |s| && s[k] != prefix[k]
    ensures !StartsWith(s, prefix)
  {
    if |prefix| <= |s| { assert s[..|prefix|][k] == s[k]; }
  }

  lemma NoCode(line: string)
    requires !StartsWith(line, CodePrefix)
    ensures StatusCode(line).None?
  {
  }

  lemma NoSummary(line: string)
    requires !StartsWith(line, Head + "RESULT:") && !StartsWith(line, Head + "CODE:")
    ensures !IsSummary(line)
  {
  }

  lemma CodeLineRead(code: int)
    ensures StatusCode(CodeLine(code)) == Some(code)
  {
    var line, text := CodeLine(code), CodeText(code);
    assert line[..|CodePrefix|] == CodePrefix && line[|CodePrefix|..] == [' '] + text;
    CodeTextRead(code);
    StripPadding([' '], text, "");
    assert [' '] + text + "" == [' '] + text;
    hide CodePrefix, Strip, CodeText, NumberOf;
  }

  lemma CodeTextRead(code: int)
    ensures var s := CodeText(code);
            && s != "" && Trimmed(s)
            && (code < 0 ==> s[0] == '-' && s[1..] != [] && AllDigits(s[1..]) && NumberOf(s[1..]) == -code)
            && (code >= 0 ==> s[0] != '-' && AllDigits(s) && NumberOf(s) == code)
  {
    NumberOfDecimal(if code < 0 then -code else code);
    var d := Decimal(if code < 0 then -code else code);
    assert IsDigit(d[0]) && IsDigit(d[|d| - 1]);
    hide Decimal, NumberOf;
    var s := CodeText(code);
    if code < 0 { assert s[1..] == d && s[|s| - 1] == d[|d| - 1]; }
  }

  lemma CollectKv(b: Block, key: string, value: string)
    requires IsKey(key)
    ensures Collect(b, KvLine(key, value)) == Block(b.fields[key := value], Some(key))
  {
    KvLineRead(key, value);
    KvLineIsNoOther(key, value);
    hide KvLine, KeyValue, IsSummary;
  }

  lemma Keys()
    ensures IsKey("class") && IsKey("test") && IsKey("stack")
  {
  }

  lemma CollectedNamed(r: Report, rest: seq<string>)
    ensures Collected(Empty, Named(r) + rest) == Collected(Block(map["class" := r.className, "test" := r.name], Some("test")), rest)
  {
    Keys();
    CollectKv(Empty, "class", r.className);
    var b := Block(map["class" := r.className], Some("class"));
    CollectKv(b, "test", r.name);
    hide Collect, KvLine, IsKey;
    var lines := Named(r) + rest;
    assert lines[0] == KvLine("class", r.className) && lines[1] == KvLine("test", r.name);
    assert lines[1..][0] == lines[1] && lines[1..][1..] == rest;
    assert map["class" := r.className]["test" := r.name] == map["class" := r.className, "test" := r.name];
  }

  /** Continuation lines are joined to the active field. */
  lemma {:induction false} CollectedText(b: Block, key: string, stack: seq<string>, n: nat)
    requires 1 <= n <= |stack| && stack[0] != "" && (forall i :: 1 <= i < |stack| ==> IsText(stack[i]))
    requires b.active == Some(key) && key in b.fields && b.fields[key] == Join(stack[..n], '\n') && b.fields[key] != ""
    ensures Collected(b, stack[n..]) == b.(fields := b.fields[key := Join(stack, '\n')])
    decreases |stack| - n
  {
    hide IsSummary, KeyValue, StatusCode, Join;
    if n == |stack| {
      assert stack[..n] == stack && stack[n..] == [];
      assert b.fields[key := b.fields[key]] == b.fields;
    } else {
      assert IsText(stack[n]);
      JoinSnoc(stack[..n], stack[n], '\n');
      assert stack[..n] + [stack[n]] == stack[..n + 1];
      var next := Collect(b, stack[n]);
      assert next.fields[key] == Join(stack[..n + 1], '\n');
      CollectedText(next, key, stack, n + 1);
      assert stack[n..][0] == stack[n] && stack[n..][1..] == stack[n + 1..];
      assert next.fields[key := Join(stack, '\n')] == b.fields[key := Join(stack, '\n')];
    }
  }

  lemma FirstLineNotEmpty(stack: seq<string>)
    requires stack != [] && Join(stack, '\n') != "" && Trimmed(Join(stack, '\n'))
    ensures stack[0] != ""
  {
  }

  lemma CollectedStack(b: Block, stack: seq<string>)
    requires IsStack(stack) && stack != []
    ensures Collected(b, StackLines(stack)) == Block(b.fields["stack" := Join(stack, '\n')], Some("stack"))
  {
    hide Collect, Collected, KvLine, Join, IsText, IsKey, Trimmed;
    Keys();
    CollectKv(b, "stack", stack[0]);
    FirstLineNotEmpty(stack);
    var next := Block(b.fields["stack" := stack[0]], Some("stack"));
    JoinOne(stack[0]);
    assert stack[..1] == [stack[0]];
    CollectedText(next, "stack", stack, 1);
    var lines := StackLines(stack);
    assert lines[0] == KvLine("stack", stack[0]) && lines[1..] == stack[1..];
    CollectedStep(b, lines);
    assert next.fields["stack" := Join(stack, '\n')] == b.fields["stack" := Join(stack, '\n')];
  }

  lemma JoinOne(x: string)
    ensures Join([x], '\n') == x
  {
  }

  lemma CollectedStep(b: Block, lines: seq<string>)
    requires lines != []
    ensures Collected(b, lines) == Collected(Collect(b, lines[0]), lines[1..])
  {
  }

  /** The fields that the lines of a report give. */
  function FieldsOf(r: Report): Fields {
    var named := map["class" := r.className, "test" := r.name];
    if r.stack == [] then named else named["stack" := Join(r.stack, '\n')]
  }

  lemma CollectedReport(r: Report)
    requires IsReport(r)
    ensures Collected(Empty, Named(r) + StackLines(r.stack)).fields == FieldsOf(r)
  {
    hide IsStack, Join;
    var b := Block(map["class" := r.className, "test" := r.name], Some("test"));
    CollectedNamed(r, StackLines(r.stack));
    if r.stack != [] { CollectedStack(b, r.stack); }
  }

  lemma FinalizedReport(r: Report)
    requires IsReport(r)
    ensures Finalized(FieldsOf(r), CodeOf(r.status)) == [CaseOf(r)]
  {
    hide Join, Strip, IsText;
    assert "class"[0] == 'c' && "test"[0] == 't' && "stack"[0] == 's';
    if r.stack != [] { StripOfTrimmed(Join(r.stack, '\n')); }
  }

  predicate NoCodes(lines: seq<string>) { forall i :: 0 <= i < |lines| ==> StatusCode(lines[i]).None? }

  lemma NamedHasNoCodes(r: Report)
    requires IsReport(r)
    ensures NoCodes(Named(r)) && NoCodes(Named(r) + StackLines(r.stack))
  {
    hide StatusCode, KvLine, IsStack, StackLines;
    KvLineIsNoOther("class", r.className);
    KvLineIsNoOther("test", r.name);
    StackHasNoCodes(r.stack);
  }

  lemma StackHasNoCodes(stack: seq<string>)
    requires IsStack(stack)
    ensures NoCodes(StackLines(stack))
  {
    hide StatusCode, KvLine, IsSummary, KeyValue, Join, Trimmed;
    if stack != [] {
      KvLineIsNoOther("stack", stack[0]);
      forall i | 1 <= i < |stack| ensures StatusCode(StackLines(stack)[i]).None? { assert IsText(stack[i]); }
    }
  }

  lemma BlockCases(block: seq<string>, code: int)
    requires NoCodes(block)
    ensures Cases(block + [CodeLine(code)]) == Finalized(Collected(Empty, block).fields, code)
  {
    CodeLineRead(code);
    hide StatusCode, CodeLine, Finalized, Collected;
    var lines, k := block + [CodeLine(code)], |block|;
    FirstCodeIs(lines, k);
    CasesStep(lines, k);
    assert lines[..k] == block && lines[k + 1..] == [];
    NoCases();
  }

  lemma ReportCases(r: Report)
    requires IsReport(r)
    ensures Cases(StartBlock(r)) == [] && Cases(EndBlock(r)) == [CaseOf(r)]
  {
    hide *;
    NamedHasNoCodes(r);
    BlockCases(Named(r), 1);
    StartIgnored(Collected(Empty, Named(r)).fields);
    BlockCases(Named(r) + StackLines(r.stack), CodeOf(r.status));
    CollectedReport(r);
    FinalizedReport(r);
    BlocksAre(r);
  }

  lemma BlocksAre(r: Report)
    ensures StartBlock(r) == Named(r) + [CodeLine(1)]
    ensures EndBlock(r) == Named(r) + StackLines(r.stack) + [CodeLine(CodeOf(r.status))]
  {
  }

  lemma StartIgnored(fields: Fields)
    ensures Finalized(fields, 1) == []
  {
  }

  lemma BlocksEndInCode(r: Report)
    ensures var b := StartBlock(r) + EndBlock(r); b != [] && StatusCode(b[|b| - 1]).Some?
    ensures var b := StartBlock(r); b != [] && StatusCode(b[|b| - 1]).Some?
  {
    CodeLineRead(1);
    CodeLineRead(CodeOf(r.status));
    hide StatusCode, CodeLine, Named;
  }

  /** Reading a written log, whatever follows it without a status code, gives back its tests in order. */
  lemma {:induction false} LogReadsBack(reports: seq<Report>, tail: seq<string>)
    requires (forall i :: 0 <= i < |reports| ==> IsReport(reports[i])) && NoCodes(tail)
    ensures Cases(Log(reports) + tail) == CasesOf(reports)
    decreases |reports|
  {
    hide IsReport, StartBlock, EndBlock, StatusCode, Cases, CaseOf, FirstCode;
    if reports == [] {
      FirstCodeIs(tail, |tail|);
      NoneFound(tail);
      assert Log(reports) + tail == tail;
    } else {
      var r, rest := reports[0], reports[1..];
      ReportCases(r);
      BlocksEndInCode(r);
      CasesAppend(StartBlock(r), EndBlock(r));
      CasesAppend(StartBlock(r) + EndBlock(r), Log(rest) + tail);
      LogReadsBack(rest, tail);
      assert Log(reports) + tail == StartBlock(r) + EndBlock(r) + (Log(rest) + tail);
    }
  }

  lemma NoneFound(lines: seq<string>)
    requires FirstCode(lines) == |lines|
    ensures Cases(lines) == []
  {
  }

  // ---------------------------------------------------------------- blocks that no runner should write

  /** A block with any other code is an error, which names the code unless there is a stack. */
  lemma UnknownCodeIsError(r: Report, code: int)
    requires IsReport(r) && !(-3 <= code <= 1)
    ensures Cases(Named(r) + StackLines(r.stack) + [CodeLine(code)]) ==
            [TestCase(r.className, r.name, Errored,
                      Some(if r.stack == [] then "Unknown INSTRUMENTATION_STATUS_CODE: " + CodeText(code) else Join(r.stack, '\n')))]
  {
    hide *;
    NamedHasNoCodes(r);
    BlockCases(Named(r) + StackLines(r.stack), code);
    CollectedReport(r);
    FinalizedUnknown(r, code);
  }

  lemma FinalizedUnknown(r: Report, code: int)
    requires IsReport(r) && !(-3 <= code <= 1)
    ensures Finalized(FieldsOf(r), code) ==
            [TestCase(r.className, r.name, Errored,
                      Some(if r.stack == [] then "Unknown INSTRUMENTATION_STATUS_CODE: " + CodeText(code) else Join(r.stack, '\n')))]
  {
    hide Join, Strip, IsText, CodeText;
    assert "class"[0] == 'c' && "test"[0] == 't' && "stack"[0] == 's';
    if r.stack != [] { StripOfTrimmed(Join(r.stack, '\n')); }
  }

  /** White space around a stack is not part of it, and a blank stack is none. */
  lemma StackIsStripped(fields: Fields, before: string, text: string, after: string)
    requires AllSpace(before) && AllSpace(after) && Trimmed(text)
    ensures StackOf(fields["stack" := before + text + after]) == if text == "" then None else Some(text)
  {
    hide Strip;
    StripPadding(before, text, after);
  }

  /** A block without class, test and stack, or with empty ones, is a test under the default names. */
  lemma NamelessBlock(status: Status)
    ensures var code := CodeLine(CodeOf(status));
            && Cases([code]) == [TestCase("UnknownClass", "unknownTest", status, None)]
            && Cases([KvLine("class", ""), KvLine("test", ""), KvLine("stack", " "), code]) == Cases([code])
  {
    hide *;
    var code := CodeOf(status);
    NothingNamed();
    BlockCases([], code);
    assert [] + [CodeLine(code)] == [CodeLine(code)];
    BlankFields(Collected(Empty, []).fields, status);
    var block := [KvLine("class", ""), KvLine("test", ""), KvLine("stack", " ")];
    EmptyBlock(Report("", "", Passed, [" "]), block);
    BlockCases(block, code);
    assert block + [CodeLine(code)] == [KvLine("class", ""), KvLine("test", ""), KvLine("stack", " "), CodeLine(code)];
    BlankFields(Collected(Empty, block).fields, status);
  }

  predicate Blank(fields: Fields) {
    && ("class" in fields ==> fields["class"] == "")
    && ("test" in fields ==> fields["test"] == "")
    && ("stack" in fields ==> AllSpace(fields["stack"]))
  }

  lemma BlankFields(fields: Fields, status: Status)
    requires Blank(fields)
    ensures Finalized(fields, CodeOf(status)) == [TestCase("UnknownClass", "unknownTest", status, None)]
  {
    hide Strip, CodeText;
    if "stack" in fields {
      StripPadding(fields["stack"], "", "");
      assert fields["stack"] + "" + "" == fields["stack"];
    }
  }

  lemma NothingNamed()
    ensures NoCodes([]) && Blank(Collected(Empty, []).fields)
  {
  }

  lemma EmptyBlock(r: Report, block: seq<string>)
    requires r == Report("", "", Passed, [" "]) && block == [KvLine("class", ""), KvLine("test", ""), KvLine("stack", " ")]
    ensures NoCodes(block) && Blank(Collected(Empty, block).fields)
  {
    hide Collect, KvLine, IsKey, StatusCode, Collected;
    KvLineIsNoOther("class", "");
    KvLineIsNoOther("test", "");
    KvLineIsNoOther("stack", " ");
    assert block == Named(r) + [KvLine("stack", " ")];
    CollectedNamed(r, [KvLine("stack", " ")]);
    var b := Block(map["class" := "", "test" := ""], Some("test"));
    Keys();
    CollectKv(b, "stack", " ");
    CollectedStep(b, [KvLine("stack", " ")]);
    assert [KvLine("stack", " ")][1..] == [];
    CollectedNothing(Collect(b, KvLine("stack", " ")));
    assert Collected(Empty, block).fields == b.fields["stack" := " "] && AllSpace(" ");
    assert "class"[0] == 'c' && "test"[0] == 't' && "stack"[0] == 's';
  }

  lemma CollectedNothing(b: Block)
    ensures Collected(b, []) == b
  {
  }

  lemma SummaryLines(line: string)
    ensures IsSummary(line) <==> StartsWith(line, "INSTRUMENTATION_RESULT:") || StartsWith(line, "INSTRUMENTATION_CODE:")
  {
    assert Head + "RESULT:" == "INSTRUMENTATION_RESULT:" && Head + "CODE:" == "INSTRUMENTATION_CODE:";
    hide StartsWith, Head;
  }

  /** Plain text after a line of the trailing summary belongs to no field. */
  lemma SummaryEndsTheField(b: Block, summary: string, text: seq<string>)
    requires StartsWith(summary, "INSTRUMENTATION_RESULT:") || StartsWith(summary, "INSTRUMENTATION_CODE:")
    requires forall i :: 0 <= i < |text| ==> IsText(text[i])
    ensures Collected(b, [summary] + text) == b.(active := None)
  {
    hide IsSummary, KeyValue, StatusCode, StartsWith;
    SummaryLines(summary);
    CollectedStep(b, [summary] + text);
    assert ([summary] + text)[1..] == text;
    TextWithoutField(b.(active := None), text);
  }

  lemma {:induction false} TextWithoutField(b: Block, text: seq<string>)
    requires b.active == None && forall i :: 0 <= i < |text| ==> IsText(text[i])
    ensures Collected(b, text) == b
  {
    hide IsSummary, KeyValue, StatusCode;
    if text == [] {
    } else {
      assert IsText(text[0]);
      TextWithoutField(b, text[1..]);
    }
  }

  /** A value that starts on the line after its key has no line break before it. */
  lemma EmptyValueContinues(b: Block, key: string, text: seq<string>)
    requires IsKey(key) && text != [] && text[0] != "" && forall i :: 0 <= i < |text| ==> IsText(text[i])
    ensures Collected(b, [KvLine(key, "")] + text) == Block(b.fields[key := Join(text, '\n')], Some(key))
  {
    hide IsSummary, KeyValue, StatusCode, KvLine, IsKey, Collected, Join;
    var lines := [KvLine(key, "")] + text;
    CollectedStep(b, lines);
    CollectKv(b, key, "");
    assert lines[1..] == text;
    var open := Block(b.fields[key := ""], Some(key));
    CollectedStep(open, text);
    assert IsText(text[0]);
    var next := Collect(open, text[0]);
    JoinOne(text[0]);
    assert text[..1] == [text[0]];
    CollectedText(next, key, text, 1);
    assert next.fields[key := Join(text, '\n')] == b.fields[key := Join(text, '\n')];
  }

  // ---------------------------------------------------------------- the two line patterns, exactly

  /** The line is the prefix, white space, a key, an equals sign and the value. */
  ghost predicate IsStatusLine(line: string, pad: string, key: string, value: string) {
    pad != "" && AllSpace(pad) && IsKey(key) && line == KvPrefix + (pad + (key + (['='] + value)))
  }

  lemma StatusLineIsRead(line: string, pad: string, key: string, value: string)
    requires IsStatusLine(line, pad, key, value)
    ensures KeyValue(line) == Some((key, value))
  {
    var body := key + (['='] + value);
    BodyParts(key, value, body);
    PaddedBody(pad, key, body);
    hide KvPrefix, StripLeft, KeyLength, IsKey;
    assert line[..|KvPrefix|] == KvPrefix && line[|KvPrefix|..] == pad + body;
    KeyValueIs(line, pad + body, body, |key|);
  }

  lemma PaddedBody(pad: string, key: string, body: string)
    requires AllSpace(pad) && IsKey(key) && key <= body
    ensures StripLeft(pad + body) == body
  {
    assert IsKeyChar(key[0]) && body[0] == key[0];
    StripLeftPadding(pad, body);
  }

  lemma {:induction false} KeyLengthSpans(s: string)
    ensures forall i :: 0 <= i < KeyLength(s) ==> IsKeyChar(s[i])
  {
    if s != [] && IsKeyChar(s[0]) {
      KeyLengthSpans(s[1..]);
      forall i | 0 <= i < KeyLength(s) ensures IsKeyChar(s[i]) {
        if i > 0 { assert s[i] == s[1..][i - 1]; }
      }
    }
  }

  lemma KeyValueParts(line: string)
    requires KeyValue(line).Some?
    ensures StartsWith(line, KvPrefix)
    ensures var rest := line[|KvPrefix|..];
            var body := StripLeft(rest);
            var n := KeyLength(body);
            |body| < |rest| && 0 < n < |body| && body[n] == '=' && KeyValue(line).value == (body[..n], body[n + 1..])
  {
    hide KvPrefix, StripLeft, KeyLength;
  }

  lemma Assembled(line: string, rest: string, body: string, n: nat)
    requires StartsWith(line, KvPrefix) && rest == line[|KvPrefix|..] && |body| < |rest| && body == rest[|rest| - |body|..]
    requires 0 < n < |body| && body[n] == '=' && IsKey(body[..n]) && AllSpace(rest[..|rest| - |body|])
    ensures IsStatusLine(line, rest[..|rest| - |body|], body[..n], body[n + 1..])
  {
    hide KvPrefix, IsKey, AllSpace;
    assert body == body[..n] + (['='] + body[n + 1..]);
    assert rest == rest[..|rest| - |body|] + body;
    assert line == KvPrefix + rest;
  }

  lemma ReadIsStatusLine(line: string)
    requires KeyValue(line).Some?
    ensures exists pad :: IsStatusLine(line, pad, KeyValue(line).value.0, KeyValue(line).value.1)
  {
    hide KeyValue, KvPrefix, StripLeft, KeyLength, IsStatusLine;
    KeyValueParts(line);
    var rest := line[|KvPrefix|..];
    var body := StripLeft(rest);
    StrippedLeft(rest);
    KeyLengthSpans(body);
    Assembled(line, rest, body, KeyLength(body));
  }

  /** A line gives a key and a value exactly when it has the shape of a status line with them. */
  lemma StatusLinesExactly(line: string, key: string, value: string)
    ensures KeyValue(line) == Some((key, value)) <==> exists pad :: IsStatusLine(line, pad, key, value)
  {
    hide KeyValue, IsStatusLine;
    if KeyValue(line) == Some((key, value)) { ReadIsStatusLine(line); }
    if exists pad :: IsStatusLine(line, pad, key, value) {
      var pad :| IsStatusLine(line, pad, key, value);
      StatusLineIsRead(line, pad, key, value);
    }
  }

  /** The line is the prefix and, amid white space, the digits of the code after an optional minus sign. */
  ghost predicate IsCodeLine(line: string, before: string, minus: bool, digits: string, after: string) {
    && AllSpace(before) && AllSpace(after) && digits != "" && AllDigits(digits)
    && line == CodePrefix + (before + ((if minus then "-" else "") + digits) + after)
  }

  lemma CodeLineIsRead(line: string, before: string, minus: bool, digits: string, after: string)
    requires IsCodeLine(line, before, minus, digits, after)
    ensures StatusCode(line) == Some(if minus then -(NumberOf(digits) as int) else NumberOf(digits))
  {
    hide CodePrefix, Strip, NumberOf;
    var text := (if minus then "-" else "") + digits;
    assert IsDigit(digits[0]) && IsDigit(digits[|digits| - 1]);
    assert text[|text| - 1] == digits[|digits| - 1] && text[0] == if minus then '-' else digits[0];
    assert minus ==> text[1..] == digits;
    assert !minus ==> text == digits;
    var rest := before + text + after;
    assert line[..|CodePrefix|] == CodePrefix && line[|CodePrefix|..] == rest;
    StripPadding(before, text, after);
  }

  lemma ReadIsCodeLine(line: string)
    requires StatusCode(line).Some?
    ensures exists before, minus, digits, after ::
              IsCodeLine(line, before, minus, digits, after) &&
              StatusCode(line).value == if minus then -(NumberOf(digits) as int) else NumberOf(digits)
  {
    hide CodePrefix, Strip, NumberOf;
    var rest := line[|CodePrefix|..];
    var s := Strip(rest);
    var before, after := StripParts(rest);
    assert line == CodePrefix + rest;
    if s[0] == '-' && s[1..] != [] && AllDigits(s[1..]) {
      assert s == "-" + s[1..];
      assert IsCodeLine(line, before, true, s[1..], after);
    } else {
      assert s == "" + s;
      assert IsCodeLine(line, before, false, s, after);
    }
  }

  /** A line gives a code exactly when it has the shape of a code line, and then that of its digits and sign. */
  lemma CodeLinesExactly(line: string, code: int)
    ensures StatusCode(line) == Some(code) <==>
            exists before, minus, digits, after ::
              IsCodeLine(line, before, minus, digits, after) && code == if minus then -(NumberOf(digits) as int) else NumberOf(digits)
  {
    hide StatusCode, IsCodeLine, NumberOf;
    if StatusCode(line) == Some(code) { ReadIsCodeLine(line); }
    if exists before, minus, digits, after ::
         IsCodeLine(line, before, minus, digits, after) && code == if minus then -(NumberOf(digits) as int) else NumberOf(digits) {
      var before, minus, digits, after :|
        IsCodeLine(line, before, minus, digits, after) && code == if minus then -(NumberOf(digits) as int) else NumberOf(digits);
      CodeLineIsRead(line, before, minus, digits, after);
    }
  }
}
