/**
 Removal of HTP cache records from a multi-SoC context binary together with the matching entries
 of the compatibility metadata, following
 onnxruntime/python/multi_soc/deploy_multi_soc_ep_context.py.

 The binary is modelled by the list of record names its reader returns. Removing a record that is
 not there fails, and a removal leaves the other records in their order.
 */
module MultiSocContext {
  import opened Sorting
  import opened Text

  // ---------------------------------------------------------------- natural order of record names

  datatype Part = Chars(text: string) | Number(value: nat)

  function CharsRun(s: string): (n: nat)
    ensures n <= |s|
  {
    if s == [] || IsDigit(s[0]) then 0 else 1 + CharsRun(s[1..])
  }

  function DigitsRun(s: string): (n: nat)
    ensures n <= |s|
    ensures s != [] && IsDigit(s[0]) ==> n > 0
  {
    if s == [] || !IsDigit(s[0]) then 0 else 1 + DigitsRun(s[1..])
  }

  lemma {:induction false} CharsRunStops(s: string)
    ensures CharsRun(s) < |s| ==> IsDigit(s[CharsRun(s)])
  {
    if s != [] && !IsDigit(s[0]) { CharsRunStops(s[1..]); }
  }

  /** The name split at its runs of digits, with these as numbers. */
  function NaturalKey(s: string): seq<Part>
    decreases |s|
  {
    var k := CharsRun(s);
    if k == |s| then [Chars(s)]
    else
      CharsRunStops(s);
      var d := DigitsRun(s[k..]);
      [Chars(s[..k]), Number(NumberOf(s[k..k + d]))] + NaturalKey(s[k + d..])
  }

  predicate PartLeq(a: Part, b: Part) {
    match (a, b)
    case (Chars(s), Chars(t)) => StringLeq(s, t)
    case (Number(m), Number(n)) => m <= n
    case (Chars(_), Number(_)) => true
    case (Number(_), Chars(_)) => false
  }

  predicate KeyLeq(a: seq<Part>, b: seq<Part>) {
    if a == [] then true
    else if b == [] then false
    else if a[0] != b[0] then PartLeq(a[0], b[0])
    else KeyLeq(a[1..], b[1..])
  }

  predicate NaturalLeq(s: string, t: string) {
    KeyLeq(NaturalKey(s), NaturalKey(t))
  }

  lemma {:induction false} KeyLeqTotal(a: seq<Part>, b: seq<Part>)
    ensures KeyLeq(a, b) || KeyLeq(b, a)
  {
    if a != [] && b != [] {
      if a[0] == b[0] {
        KeyLeqTotal(a[1..], b[1..]);
      } else if a[0].Chars? && b[0].Chars? {
        StringLeqTotal(a[0].text, b[0].text);
      }
    }
  }

  lemma PartLeqOrder(a: Part, b: Part, c: Part)
    ensures PartLeq(a, b) && PartLeq(b, c) ==> PartLeq(a, c)
    ensures PartLeq(a, b) && PartLeq(b, a) ==> a == b
  {
    if a.Chars? && b.Chars? {
      StringLeqTotal(a.text, b.text);
      if c.Chars? && PartLeq(a, b) && PartLeq(b, c) { StringLeqTransitive(a.text, b.text, c.text); }
    }
  }

  lemma {:induction false} KeyLeqTransitive(a: seq<Part>, b: seq<Part>, c: seq<Part>)
    requires KeyLeq(a, b) && KeyLeq(b, c)
    ensures KeyLeq(a, c)
  {
    if a == [] {
    } else {
      PartLeqOrder(a[0], b[0], c[0]);
      PartLeqOrder(b[0], c[0], a[0]);
      if a[0] == b[0] == c[0] { KeyLeqTransitive(a[1..], b[1..], c[1..]); }
    }
  }

  lemma NaturalLeqIsPreorder()
    ensures TotalPreorder(NaturalLeq)
  {
    forall s, t ensures NaturalLeq(s, t) || NaturalLeq(t, s) {
      KeyLeqTotal(NaturalKey(s), NaturalKey(t));
    }
    forall s, t, u | NaturalLeq(s, t) && NaturalLeq(t, u) ensures NaturalLeq(s, u) {
      KeyLeqTransitive(NaturalKey(s), NaturalKey(t), NaturalKey(u));
    }
  }

  function SortedNames(records: seq<string>): seq<string> {
    Sort(NaturalLeq, records)
  }

  // ---------------------------------------------------------------- numbered names

  predicate EndsInDigit(s: string) { s != [] && IsDigit(s[|s| - 1]) }

  predicate StartsWithDigit(s: string) { s != [] && IsDigit(s[0]) }

  lemma {:induction false} CharsRunOf(text: string, rest: string)
    requires (forall i :: 0 <= i < |text| ==> !IsDigit(text[i])) && (rest == [] || IsDigit(rest[0]))
    ensures CharsRun(text + rest) == |text|
  {
    if text == [] {
      assert text + rest == rest;
    } else {
      assert (text + rest)[1..] == text[1..] + rest;
      CharsRunOf(text[1..], rest);
    }
  }

  lemma {:induction false} DigitsRunOf(digits: string, rest: string)
    requires AllDigits(digits) && !StartsWithDigit(rest)
    ensures DigitsRun(digits + rest) == |digits|
  {
    if digits == [] {
      assert digits + rest == rest;
    } else {
      assert (digits + rest)[1..] == digits[1..] + rest;
      DigitsRunOf(digits[1..], rest);
    }
  }

  lemma {:induction false} RunsAre(s: string)
    ensures forall i :: 0 <= i < CharsRun(s) ==> !IsDigit(s[i])
    ensures AllDigits(s[..DigitsRun(s)]) && !StartsWithDigit(s[DigitsRun(s)..])
  {
    if s == [] {
    } else {
      RunsAre(s[1..]);
      if IsDigit(s[0]) {
        var d := DigitsRun(s[1..]);
        assert s[..d + 1] == [s[0]] + s[1..][..d] && s[d + 1..] == s[1..][d..];
      } else {
        assert s[..0] == [] && s[0..] == s;
        forall i | 0 <= i < CharsRun(s) ensures !IsDigit(s[i]) {
          if i > 0 { assert s[i] == s[1..][i - 1]; }
        }
      }
    }
  }

  /** A key starts with the text before the first number, then has that number, then the key of what follows. */
  lemma KeyStarts(text: string, n: nat, rest: string)
    requires (forall i :: 0 <= i < |text| ==> !IsDigit(text[i])) && !StartsWithDigit(rest)
    ensures NaturalKey(text + Decimal(n) + rest) == [Chars(text), Number(n)] + NaturalKey(rest)
  {
    KeyParts(text, Decimal(n), rest);
    NumberOfDecimal(n);
  }

  lemma KeyParts(text: string, digits: string, rest: string)
    requires (forall i :: 0 <= i < |text| ==> !IsDigit(text[i])) && !StartsWithDigit(rest) && AllDigits(digits) && digits != []
    ensures NaturalKey(text + digits + rest) == [Chars(text), Number(NumberOf(digits))] + NaturalKey(rest)
  {
    var s, k, d := text + digits + rest, |text|, |digits|;
    assert s == text + (digits + rest);
    CharsRunOf(text, digits + rest);
    assert s[..k] == text && s[k..] == digits + rest && s[k..k + d] == digits && s[k + d..] == rest;
    DigitsRunOf(digits, rest);
  }

  lemma TextKey(s: string)
    requires forall i :: 0 <= i < |s| ==> !IsDigit(s[i])
    ensures NaturalKey(s) == [Chars(s)]
  {
    CharsRunOf(s, "");
    assert s + "" == s;
  }

  lemma FirstNumber(s: string) returns (text: string, digits: string, rest: string)
    requires CharsRun(s) < |s|
    ensures s == text + digits + rest && digits != [] && AllDigits(digits) && !StartsWithDigit(rest)
    ensures forall i :: 0 <= i < |text| ==> !IsDigit(text[i])
  {
    var k := CharsRun(s);
    CharsRunStops(s);
    RunsAre(s);
    RunsAre(s[k..]);
    var d := DigitsRun(s[k..]);
    text, digits, rest := s[..k], s[k..][..d], s[k..][d..];
  }

  lemma LastPart(text: string, digits: string, rest: string)
    requires digits != [] && AllDigits(digits)
    ensures EndsInDigit(text + digits + rest) <==> rest == [] || EndsInDigit(rest)
  {
    var s := text + digits + rest;
    assert s[|s| - 1] == if rest == [] then digits[|digits| - 1] else rest[|rest| - 1];
  }

  /**
   Wherever a number is written in a name, it is a part of the key by its value, between the key of
   what stands before it and the key of what follows.
   */
  lemma {:induction false} KeyAroundNumber(prefix: string, n: nat, rest: string)
    requires !EndsInDigit(prefix) && !StartsWithDigit(rest)
    ensures NaturalKey(prefix + Decimal(n) + rest) == NaturalKey(prefix) + [Number(n)] + NaturalKey(rest)
    decreases |prefix|
  {
    hide NaturalKey, NumberOf, CharsRun, DigitsRun;
    if CharsRun(prefix) == |prefix| {
      RunsAre(prefix);
      TextKey(prefix);
      KeyStarts(prefix, n, rest);
      assert [Chars(prefix), Number(n)] == [Chars(prefix)] + [Number(n)];
    } else {
      var text, digits, later := FirstNumber(prefix);
      LastPart(text, digits, later);
      var tail := later + Decimal(n) + rest;
      KeyAroundNumber(later, n, rest);
      KeyParts(text, digits, later);
      assert tail[0] == later[0];
      KeyParts(text, digits, tail);
      assert prefix + Decimal(n) + rest == text + digits + tail;
      Regroup([Chars(text), Number(NumberOf(digits))], NaturalKey(later), [Number(n)], NaturalKey(rest));
    }
  }

  lemma Regroup(a: seq<Part>, b: seq<Part>, c: seq<Part>, d: seq<Part>)
    ensures a + (b + c + d) == (a + b) + c + d
  {
  }

  /** Text and numbers alternate in a key, so that two keys never compare a text with a number. */
  lemma {:induction false} KeysAlternate(s: string, i: nat)
    requires i < |NaturalKey(s)|
    ensures NaturalKey(s)[i].Chars? <==> i % 2 == 0
    decreases |s|
  {
    hide NaturalKey, NumberOf, CharsRun, DigitsRun;
    if CharsRun(s) == |s| {
      RunsAre(s);
      TextKey(s);
    } else {
      var text, digits, rest := FirstNumber(s);
      KeyParts(text, digits, rest);
      if i >= 2 { KeysAlternate(rest, i - 2); }
    }
  }

  lemma {:induction false} KeyLeqSkips(a: seq<Part>, b: seq<Part>, c: seq<Part>)
    ensures KeyLeq(a + b, a + c) <==> KeyLeq(b, c)
  {
    if a == [] {
      assert a + b == b && a + c == c;
    } else {
      assert (a + b)[1..] == a[1..] + b && (a + c)[1..] == a[1..] + c;
      KeyLeqSkips(a[1..], b, c);
    }
  }

  /**
   Numbers at the same place of two names compare by value, whatever their lengths, and what follows
   them decides between equal ones.
   */
  lemma NumbersCompareByValue(prefix: string, m: nat, n: nat, s: string, t: string)
    requires !EndsInDigit(prefix) && !StartsWithDigit(s) && !StartsWithDigit(t)
    ensures NaturalLeq(prefix + Decimal(m) + s, prefix + Decimal(n) + t) <==> m < n || (m == n && NaturalLeq(s, t))
    ensures NaturalLeq(prefix + Decimal(m), prefix + Decimal(n)) <==> m <= n
  {
    hide NaturalKey;
    KeyAroundNumber(prefix, m, s);
    KeyAroundNumber(prefix, n, t);
    NumberFirst(NaturalKey(prefix), m, n, NaturalKey(s), NaturalKey(t));
    KeyAroundNumber(prefix, m, "");
    KeyAroundNumber(prefix, n, "");
    NumberFirst(NaturalKey(prefix), m, n, NaturalKey(""), NaturalKey(""));
    KeyLeqTotal(NaturalKey(""), NaturalKey(""));
    assert prefix + Decimal(m) + "" == prefix + Decimal(m) && prefix + Decimal(n) + "" == prefix + Decimal(n);
  }

  lemma NumberFirst(before: seq<Part>, m: nat, n: nat, a: seq<Part>, b: seq<Part>)
    ensures KeyLeq(before + [Number(m)] + a, before + [Number(n)] + b) <==> m < n || (m == n && KeyLeq(a, b))
  {
    var x, y := [Number(m)] + a, [Number(n)] + b;
    assert before + [Number(m)] + a == before + x && before + [Number(n)] + b == before + y;
    KeyLeqSkips(before, x, y);
    assert x[1..] == a && y[1..] == b;
  }

  /** Names without digits are ordered as strings. */
  lemma DigitFreeByText(s: string, t: string)
    requires (forall i :: 0 <= i < |s| ==> !IsDigit(s[i])) && (forall i :: 0 <= i < |t| ==> !IsDigit(t[i]))
    ensures NaturalLeq(s, t) <==> StringLeq(s, t)
  {
    TextKey(s);
    TextKey(t);
    hide NaturalKey;
    OnePart(s, t);
  }

  lemma OnePart(s: string, t: string)
    ensures KeyLeq([Chars(s)], [Chars(t)]) <==> StringLeq(s, t)
  {
    var a, b := [Chars(s)], [Chars(t)];
    assert a[1..] == [] && b[1..] == [];
    StringLeqTotal(s, t);
  }

  // ---------------------------------------------------------------- the metadata value

  datatype Error = UnknownRecord(name: string) | WrongFieldCount | UnsupportedVersion | MismatchedLists
                 | NothingMapped | RemovalFailed(name: string)

  datatype Result<+T> = Ok(value: T) | Err(error: Error) {
    predicate IsFailure() { Err? }
    function PropagateFailure<U>(): Result<U> requires Err? { Err(error) }
    function Extract(): T requires Ok? { value }
  }

  datatype Prop = Prop(key: string, value: string)

  const CompatKey := "ep_compatibility_info.QNNExecutionProvider"

  /** [i for i in range(from, n) if i not in drop] */
  function KeepFrom(from: nat, n: nat, drop: seq<nat>): (keep: seq<nat>)
    ensures forall j :: 0 <= j < |keep| ==> from <= keep[j] < n
    decreases n - from
  {
    if from >= n then []
    else (if from in drop then [] else [from]) + KeepFrom(from + 1, n, drop)
  }

  function Pick(column: seq<string>, keep: seq<nat>): (r: seq<string>)
    requires forall j :: 0 <= j < |keep| ==> keep[j] < |column|
    ensures |r| == |keep| && forall j :: 0 <= j < |keep| ==> r[j] == column[keep[j]]
  {
    if keep == [] then [] else [column[keep[0]]] + Pick(column, keep[1..])
  }

  function Fields(value: string): seq<string> { Split(value, ':') }

  function Entries(value: string, f: nat): seq<string>
    requires f < |Fields(value)|
  {
    Split(Fields(value)[f], ',')
  }

  predicate WellFormed(value: string) {
    && |Fields(value)| == 8
    && Fields(value)[0] == "v2"
    && |Entries(value, 4)| == |Entries(value, 5)| == |Entries(value, 6)|
  }

  function KeepEntries(value: string, keep: seq<nat>): string
    requires WellFormed(value) && forall j :: 0 <= j < |keep| ==> keep[j] < |Entries(value, 4)|
  {
    Join(Fields(value)[4 := Join(Pick(Entries(value, 4), keep), ',')]
                      [5 := Join(Pick(Entries(value, 5), keep), ',')]
                      [6 := Join(Pick(Entries(value, 6), keep), ',')], ':')
  }

  function EditValue(value: string, indices: seq<nat>): Result<string> {
    if |Fields(value)| != 8 then Err(WrongFieldCount)
    else if Fields(value)[0] != "v2" then Err(UnsupportedVersion)
    else if !WellFormed(value) then Err(MismatchedLists)
    else
      var n := |Entries(value, 4)|;
      if forall i :: i in indices ==> i >= n then Err(NothingMapped)
      else Ok(KeepEntries(value, KeepFrom(0, n, indices)))
  }

  function FindProp(props: seq<Prop>): (k: nat)
    ensures k <= |props|
    ensures k < |props| ==> props[k].key == CompatKey
    ensures forall i :: 0 <= i < k ==> props[i].key != CompatKey
  {
    if props == [] || props[0].key == CompatKey then 0 else 1 + FindProp(props[1..])
  }

  function RemoveMetadata(props: seq<Prop>, indices: seq<nat>): Result<seq<Prop>> {
    var k := FindProp(props);
    if indices == [] || k == |props| then Ok(props)
    else
      var edited :- EditValue(props[k].value, indices);
      Ok(props[k := Prop(CompatKey, edited)])
  }

  method KeptIndices(entryCount: nat, drop: set<nat>, ghost indices: seq<nat>) returns (keep: seq<nat>)
    requires forall i :: 0 <= i < entryCount ==> (i in drop <==> i in indices)
    ensures keep == KeepFrom(0, entryCount, indices)
  {
    hide KeepFrom;
    keep := [];
    for i := 0 to entryCount
      invariant keep + KeepFrom(i, entryCount, indices) == KeepFrom(0, entryCount, indices)
    {
      KeepStep(i, entryCount, indices, keep);
      if i !in drop {
        keep := keep + [i];
      }
    }
    KeepStep(entryCount, entryCount, indices, keep);
  }

  lemma KeepStep(i: nat, n: nat, drop: seq<nat>, keep: seq<nat>)
    requires i <= n
    ensures keep + KeepFrom(i, n, drop)
            == if i == n then keep else (if i in drop then keep else keep + [i]) + KeepFrom(i + 1, n, drop)
  {
  }

  method EditMetadataValue(value: string, indices: seq<nat>) returns (edited: Result<string>)
    ensures edited == EditValue(value, indices)
  {
    hide Split, Join, KeepFrom, Pick;
    var fields := Split(value, ':');
    if |fields| != 8 {
      return Err(WrongFieldCount);
    }
    if fields[0] != "v2" {
      return Err(UnsupportedVersion);
    }
    var lists := [Split(fields[4], ','), Split(fields[5], ','), Split(fields[6], ',')];
    if !(|lists[0]| == |lists[1]| == |lists[2]|) {
      return Err(MismatchedLists);
    }
    var entryCount := |lists[0]|;
    var drop := set i | i in indices && i < entryCount;
    if drop == {} {
      assert forall i :: i in indices && i < entryCount ==> i in drop;
      return Err(NothingMapped);
    }
    ghost var dropped :| dropped in drop;
    var keep := KeptIndices(entryCount, drop, indices);
    for p := 0 to 3
      invariant |fields| == 8
      invariant forall f :: 0 <= f < 8 ==>
        fields[f] == if 4 <= f < 4 + p then Join(Pick(lists[f - 4], keep), ',') else Fields(value)[f]
    {
      fields := fields[4 + p := Join(Pick(lists[p], keep), ',')];
    }
    assert fields == Fields(value)[4 := Join(Pick(lists[0], keep), ',')][5 := Join(Pick(lists[1], keep), ',')]
                                  [6 := Join(Pick(lists[2], keep), ',')];
    return Ok(Join(fields, ':'));
  }

  class OnnxModel {
    var metadataProps: seq<Prop>

    constructor (props: seq<Prop>)
      ensures metadataProps == props
    {
      metadataProps := props;
    }

    /** An error leaves the model unchanged. */
    method ApplyMetadataRemoval(indices: seq<nat>) returns (status: Result<()>)
      modifies this
      ensures match RemoveMetadata(old(metadataProps), indices)
              case Ok(props) => status.Ok? && metadataProps == props
              case Err(e) => status == Err(e) && metadataProps == old(metadataProps)
    {
      if indices == [] {
        return Ok(());
      }
      var k := 0;
      while k < |metadataProps| && metadataProps[k].key != CompatKey
        invariant 0 <= k <= |metadataProps|
        invariant k + FindProp(metadataProps[k..]) == FindProp(metadataProps)
      {
        assert metadataProps[k..][1..] == metadataProps[k + 1..];
        k := k + 1;
      }
      if k == |metadataProps| {
        return Ok(());
      }
      var edited := EditMetadataValue(metadataProps[k].value, indices);
      if edited.Err? {
        return Err(edited.error);
      }
      metadataProps := metadataProps[k := Prop(metadataProps[k].key, edited.value)];
      return Ok(());
    }
  }

  // ---------------------------------------------------------------- resolving the argument

  /** The stripped, non-blank pieces. */
  function NamesIn(pieces: seq<string>): seq<string> {
    if pieces == [] then []
    else (if Strip(pieces[0]) == "" then [] else [Strip(pieces[0])]) + NamesIn(pieces[1..])
  }

  function Requested(arg: string): seq<string> { NamesIn(Split(arg, ',')) }

  /** Position of a name, of its last occurrence if it is repeated. */
  function IndexOf(names: seq<string>, name: string): (i: nat)
    requires name in names
    ensures i < |names| && names[i] == name
  {
    if names[|names| - 1] == name then |names| - 1 else IndexOf(names[..|names| - 1], name)
  }

  function Indices(sorted: seq<string>, names: seq<string>): Result<seq<nat>> {
    if names == [] then Ok([])
    else if names[0] !in sorted then Err(UnknownRecord(names[0]))
    else
      var rest :- Indices(sorted, names[1..]);
      Ok([IndexOf(sorted, names[0])] + rest)
  }

  method ResolveRemovedIndices(records: seq<string>, arg: string) returns (names: seq<string>, status: Result<seq<nat>>)
    ensures status == Indices(SortedNames(records), Requested(arg))
    ensures status.Ok? ==> names == Requested(arg)
  {
    hide SortedNames, Split, Strip, IndexOf, Indices;
    var sorted := SortedNames(records);
    var pieces := Split(arg, ',');
    var indices: seq<nat> := [];
    names := [];
    NoIndices(sorted);
    assert pieces[0..] == pieces;
    for i := 0 to |pieces|
      invariant names + NamesIn(pieces[i..]) == NamesIn(pieces)
      invariant Indices(sorted, names) == Ok(indices)
    {
      var name := Strip(pieces[i]);
      ghost var rest := NamesIn(pieces[i + 1..]);
      NamesStep(pieces, i, names);
      if name != "" {
        IndicesAppend(sorted, names, indices, name, rest);
        if name !in sorted {
          status := Err(UnknownRecord(name));
          return;
        }
        names := names + [name];
        indices := indices + [IndexOf(sorted, name)];
      }
    }
    assert pieces[|pieces|..] == [] && names + [] == names;
    status := Ok(indices);
  }

  lemma NamesStep(pieces: seq<string>, i: nat, names: seq<string>)
    requires i < |pieces|
    ensures var name := Strip(pieces[i]);
            names + NamesIn(pieces[i..]) == (if name == "" then names else names + [name]) + NamesIn(pieces[i + 1..])
  {
    hide Strip;
    assert pieces[i..][1..] == pieces[i + 1..];
  }

  lemma NoIndices(sorted: seq<string>)
    ensures Indices(sorted, []) == Ok([])
  {
  }

  lemma {:induction false} IndicesAppend(sorted: seq<string>, names: seq<string>, indices: seq<nat>, name: string, rest: seq<string>)
    requires Indices(sorted, names) == Ok(indices)
    ensures name in sorted ==> Indices(sorted, names + [name]) == Ok(indices + [IndexOf(sorted, name)])
    ensures name !in sorted ==> Indices(sorted, names + [name] + rest) == Err(UnknownRecord(name))
    decreases |names|
  {
    hide IndexOf;
    if names != [] {
      IndicesAppend(sorted, names[1..], indices[1..], name, rest);
      var h := IndexOf(sorted, names[0]);
      assert indices == [h] + indices[1..];
      if name in sorted {
        var i := IndexOf(sorted, name);
        assert [h] + (indices[1..] + [i]) == indices + [i];
      }
      assert (names + [name])[1..] == names[1..] + [name];
      assert (names + [name] + rest)[1..] == names[1..] + [name] + rest;
    } else {
      assert names + [name] + rest == [name] + rest && names + [name] == [name] && [name][1..] == [];
      assert Indices(sorted, []) == Ok([]) && indices == [];
      if name in sorted {
        var i := IndexOf(sorted, name);
        assert Indices(sorted, [name]) == Ok([i] + []) && [i] + [] == indices + [i];
      }
    }
  }

  // ---------------------------------------------------------------- one run of the tool

  datatype Context = Context(records: seq<string>, props: seq<Prop>)

  function NotIn(removed: set<string>): string -> bool { x => x !in removed }

  function Without(records: seq<string>, removed: set<string>): seq<string> {
    Filter(NotIn(removed), records)
  }

  function DropRecords(records: seq<string>, names: seq<string>): Result<seq<string>>
    decreases |names|
  {
    if names == [] then Ok(records)
    else if names[0] !in records then Err(RemovalFailed(names[0]))
    else DropRecords(Without(records, {names[0]}), names[1..])
  }

  /** --remove_record: resolve, edit the metadata, then remove the records. */
  function RemoveRecords(c: Context, arg: string): Result<Context> {
    RemoveNamed(c, Requested(arg))
  }

  function RemoveNamed(c: Context, names: seq<string>): Result<Context> {
    var indices :- Indices(SortedNames(c.records), names);
    var props :- RemoveMetadata(c.props, indices);
    var records :- DropRecords(c.records, names);
    Ok(Context(records, props))
  }

  function ToSet(names: seq<string>): set<string> { set n | n in names }

  lemma {:induction false} WithoutTwice(s: seq<string>, a: set<string>, b: set<string>)
    ensures Without(Without(s, a), b) == Without(s, a + b)
  {
    if s == [] {
    } else {
      WithoutTwice(s[1..], a, b);
      var rest := Without(s[1..], a);
      assert ([s[0]] + rest)[1..] == rest;
    }
  }

  ghost predicate NoDuplicates(s: seq<string>) {
    forall i, j :: 0 <= i < j < |s| ==> s[i] != s[j]
  }

  /** The names are all records, and none is repeated. */
  ghost predicate Removable(records: seq<string>, names: seq<string>) {
    (forall n :: n in names ==> n in records) && NoDuplicates(names)
  }

  lemma RemovableAppend(records: seq<string>, a: seq<string>, b: seq<string>)
    ensures Removable(records, a + b) <==> Removable(records, a) && Removable(Without(records, ToSet(a)), b)
  {
    FilterMembers(NotIn(ToSet(a)), records);
    hide Filter;
    var left := Without(records, ToSet(a));
    assert forall n :: n in left <==> n in records && n !in a;
    forall i | 0 <= i < |a| ensures (a + b)[i] == a[i] {}
    if Removable(records, a + b) {
      forall n | n in a ensures n in records { assert n in a + b; }
      forall n | n in b ensures n in left {
        assert n in a + b;
        var j :| 0 <= j < |b| && b[j] == n;
        assert (a + b)[|a| + j] == n;
      }
      forall i, j | 0 <= i < j < |b| ensures b[i] != b[j] { assert (a + b)[|a| + i] == b[i] && (a + b)[|a| + j] == b[j]; }
    }
    if Removable(records, a) && Removable(left, b) {
      forall i, j | 0 <= i < j < |a + b| ensures (a + b)[i] != (a + b)[j] {
        if i < |a| <= j { assert b[j - |a|] in left && a[i] in a; }
      }
    }
  }

  /** The removals succeed exactly when the names are present and none is repeated, and leave the others in order. */
  lemma {:induction false} DropRecordsIs(records: seq<string>, names: seq<string>)
    ensures DropRecords(records, names).Ok? <==> Removable(records, names)
    ensures DropRecords(records, names).Ok? ==> DropRecords(records, names).value == Without(records, ToSet(names))
    decreases |names|
  {
    hide Filter;
    if names == [] {
      assert ToSet(names) == {};
      WithoutNone(records);
    } else {
      var first, rest := [names[0]], names[1..];
      assert names == first + rest && ToSet(first) == {names[0]};
      assert Removable(records, first) <==> names[0] in records;
      RemovableAppend(records, first, rest);
      DropRecordsIs(Without(records, {names[0]}), rest);
      WithoutTwice(records, {names[0]}, ToSet(rest));
      assert {names[0]} + ToSet(rest) == ToSet(names);
      hide Removable;
    }
  }

  lemma {:induction false} WithoutNone(s: seq<string>)
    ensures Without(s, {}) == s
  {
    if s == [] {
    } else {
      WithoutNone(s[1..]);
    }
  }

  lemma {:induction false} DistinctMultiset(s: seq<string>)
    ensures NoDuplicates(s) <==> forall x :: multiset(s)[x] <= 1
  {
    if s == [] {
    } else {
      var t := s[1..];
      DistinctMultiset(t);
      assert s == [s[0]] + t;
      assert s[0] in t <==> multiset(t)[s[0]] > 0;
      if NoDuplicates(s) {
        assert NoDuplicates(t) by {
          forall i, j | 0 <= i < j < |t| ensures t[i] != t[j] { assert s[i + 1] != s[j + 1]; }
        }
        assert s[0] !in t by {
          forall k | 0 <= k < |t| ensures t[k] != s[0] { assert s[0] != s[k + 1]; }
        }
      }
      if forall x :: multiset(s)[x] <= 1 {
        forall x ensures multiset(t)[x] <= 1 { assert multiset(s)[x] <= 1; }
        assert multiset(s)[s[0]] <= 1;
        forall i, j | 0 <= i < j < |s| ensures s[i] != s[j] {
          assert s[j] == t[j - 1] && s[j] in t;
          if i > 0 { assert t[i - 1] != t[j - 1]; }
        }
      }
    }
  }

  lemma SortedDistinct(records: seq<string>)
    requires NoDuplicates(records)
    ensures NoDuplicates(SortedNames(records)) && forall x :: x in SortedNames(records) <==> x in records
    ensures |SortedNames(records)| == |records|
  {
    var sorted := SortedNames(records);
    NaturalLeqIsPreorder();
    SortSorts(NaturalLeq, records);
    DistinctMultiset(records);
    DistinctMultiset(sorted);
    assert |multiset(sorted)| == |sorted| && |multiset(records)| == |records|;
    forall x ensures x in sorted <==> x in records {
      assert x in sorted <==> x in multiset(sorted);
      assert x in records <==> x in multiset(records);
    }
  }

  /** Among distinct records, those numbered under one prefix stand in the order of their numbers. */
  lemma SortedByNumber(records: seq<string>, prefix: string, m: nat, n: nat, i: nat, j: nat)
    requires NoDuplicates(records) && !EndsInDigit(prefix) && i < |SortedNames(records)| && j < |SortedNames(records)|
    requires SortedNames(records)[i] == prefix + Decimal(m) && SortedNames(records)[j] == prefix + Decimal(n)
    ensures i < j <==> m < n
  {
    NaturalLeqIsPreorder();
    SortSorts(NaturalLeq, records);
    SortedDistinct(records);
    hide NaturalLeq, Decimal, EndsInDigit;
    var sorted := SortedNames(records);
    NumbersCompareByValue(prefix, m, n, "", "");
    NumbersCompareByValue(prefix, n, m, "", "");
    if i < j {
      assert NaturalLeq(sorted[i], sorted[j]) && sorted[i] != sorted[j];
    } else {
      assert NaturalLeq(sorted[j], sorted[i]);
    }
  }

  function Numbered(prefix: string, first: nat, n: nat): (names: seq<string>)
    ensures |names| == n
  {
    seq(n, i requires 0 <= i => prefix + Decimal(first + i))
  }

  lemma {:induction false} AtLeastIndex(f: seq<int>, i: nat)
    requires i < |f| && f[0] >= 0 && forall j, k :: 0 <= j < k < |f| ==> f[j] < f[k]
    ensures f[i] >= i
  {
    if i == 0 {
    } else {
      AtLeastIndex(f, i - 1);
    }
  }

  lemma {:induction false} AtMostIndex(f: seq<int>, i: nat)
    requires i < |f| && f[|f| - 1] < |f| && forall j, k :: 0 <= j < k < |f| ==> f[j] < f[k]
    ensures f[i] <= i
    decreases |f| - i
  {
    if i == |f| - 1 {
    } else {
      AtMostIndex(f, i + 1);
    }
  }

  lemma NumberedAt(prefix: string, first: nat, n: nat, i: nat)
    requires i < n
    ensures Numbered(prefix, first, n)[i] == prefix + Decimal(first + i)
  {
  }

  lemma NumberedDistinct(prefix: string, first: nat, n: nat)
    ensures NoDuplicates(Numbered(prefix, first, n))
  {
    var s := Numbered(prefix, first, n);
    hide Numbered, Decimal, NumberOf;
    forall i, j | 0 <= i < j < |s| ensures s[i] != s[j] {
      NumberedAt(prefix, first, n, i);
      NumberedAt(prefix, first, n, j);
      PrefixCancels(prefix, Decimal(first + i), Decimal(first + j));
      NumberOfDecimal(first + i);
      NumberOfDecimal(first + j);
    }
  }

  lemma PrefixCancels(p: string, a: string, b: string)
    ensures p + a == p + b ==> a == b
  {
    assert (p + a)[|p|..] == a && (p + b)[|p|..] == b;
  }

  lemma NumberOfRecord(records: seq<string>, prefix: string, first: nat, i: nat) returns (k: nat)
    requires multiset(records) == multiset(Numbered(prefix, first, |records|)) && i < |SortedNames(records)|
    ensures k < |records| && SortedNames(records)[i] == prefix + Decimal(first + k)
  {
    NaturalLeqIsPreorder();
    SortSorts(NaturalLeq, records);
    NumberedDistinct(prefix, first, |records|);
    var sorted, numbered := SortedNames(records), Numbered(prefix, first, |records|);
    hide NaturalLeq, Sort, Numbered, Decimal;
    assert sorted[i] in multiset(sorted) && sorted[i] in multiset(numbered);
    k :| 0 <= k < |numbered| && numbered[k] == sorted[i];
    NumberedAt(prefix, first, |records|, k);
  }

  /** The numbers of the sorted records, counted from the first; they increase. */
  lemma Ranks(records: seq<string>, prefix: string, first: nat) returns (ranks: seq<int>)
    requires NoDuplicates(records) && !EndsInDigit(prefix) && multiset(records) == multiset(Numbered(prefix, first, |records|))
    ensures |ranks| == |SortedNames(records)|
    ensures forall i :: 0 <= i < |ranks| ==> 0 <= ranks[i] < |records| && SortedNames(records)[i] == prefix + Decimal(first + ranks[i])
    ensures forall j, k :: 0 <= j < k < |ranks| ==> ranks[j] < ranks[k]
  {
    hide *;
    var sorted := SortedNames(records);
    ranks := [];
    while |ranks| < |sorted|
      invariant |ranks| <= |sorted|
      invariant forall i :: 0 <= i < |ranks| ==> 0 <= ranks[i] < |records| && sorted[i] == prefix + Decimal(first + ranks[i])
    {
      var k := NumberOfRecord(records, prefix, first, |ranks|);
      ranks := ranks + [k];
    }
    forall j, k | 0 <= j < k < |ranks| ensures ranks[j] < ranks[k] {
      SortedByNumber(records, prefix, first + ranks[j], first + ranks[k], j, k);
    }
  }

  /** Records with consecutive numbers, in whatever order the binary holds them, are sorted as they are counted. */
  lemma ConsecutiveRecords(records: seq<string>, prefix: string, first: nat)
    requires !EndsInDigit(prefix) && multiset(records) == multiset(Numbered(prefix, first, |records|))
    ensures |SortedNames(records)| == |records|
    ensures forall i :: 0 <= i < |records| ==> SortedNames(records)[i] == prefix + Decimal(first + i)
  {
    hide *;
    NumberedDistinct(prefix, first, |records|);
    DistinctMultiset(Numbered(prefix, first, |records|));
    DistinctMultiset(records);
    SortedDistinct(records);
    var ranks := Ranks(records, prefix, first);
    forall i | 0 <= i < |records| ensures SortedNames(records)[i] == prefix + Decimal(first + i) {
      AtLeastIndex(ranks, i);
      AtMostIndex(ranks, i);
    }
  }

  lemma {:induction false} IndicesAre(sorted: seq<string>, names: seq<string>)
    requires NoDuplicates(sorted)
    ensures Indices(sorted, names).Ok? <==> forall n :: n in names ==> n in sorted
    ensures Indices(sorted, names).Ok? ==> |Indices(sorted, names).value| == |names|
    ensures Indices(sorted, names).Ok? ==>
              forall i: nat :: i in Indices(sorted, names).value <==> i < |sorted| && sorted[i] in names
  {
    if names == [] {
    } else {
      IndicesAre(sorted, names[1..]);
      assert names == [names[0]] + names[1..];
    }
  }

  // ---------------------------------------------------------------- which entries survive

  /** The entries of a column whose names are not removed. */
  function Sieve(names: seq<string>, column: seq<string>, removed: set<string>): seq<string>
    requires |names| == |column|
  {
    if names == [] then []
    else (if names[0] in removed then [] else [column[0]]) + Sieve(names[1..], column[1..], removed)
  }

  lemma {:induction false} KeepIsSieve(names: seq<string>, column: seq<string>, removed: set<string>, drop: seq<nat>, from: nat)
    requires |names| == |column| && from <= |names|
    requires forall i: nat :: i < |names| ==> (i in drop <==> names[i] in removed)
    ensures Pick(column, KeepFrom(from, |names|, drop)) == Sieve(names[from..], column[from..], removed)
    decreases |names| - from
  {
    if from < |names| {
      KeepIsSieve(names, column, removed, drop, from + 1);
      var rest := KeepFrom(from + 1, |names|, drop);
      assert names[from..][1..] == names[from + 1..] && column[from..][1..] == column[from + 1..];
      if from !in drop { assert ([from] + rest)[1..] == rest; }
    }
  }

  lemma {:induction false} SieveLength(names: seq<string>, column: seq<string>, removed: set<string>)
    requires |names| == |column|
    ensures Sieve(names, names, removed) == Without(names, removed)
    ensures |Sieve(names, column, removed)| == |Without(names, removed)|
  {
    if names == [] {
    } else {
      SieveLength(names[1..], column[1..], removed);
    }
  }

  lemma {:induction false} SieveTwice(names: seq<string>, column: seq<string>, a: set<string>, b: set<string>)
    requires |names| == |column|
    ensures |Without(names, a)| == |Sieve(names, column, a)|
    ensures Sieve(Without(names, a), Sieve(names, column, a), b) == Sieve(names, column, a + b)
  {
    SieveLength(names, column, a);
    if names == [] {
    } else {
      SieveTwice(names[1..], column[1..], a, b);
      var n, c := Without(names[1..], a), Sieve(names[1..], column[1..], a);
      if names[0] !in a {
        var n', c' := Without(names, a), Sieve(names, column, a);
        assert n' == [names[0]] + n && c' == [column[0]] + c;
        assert n'[1..] == n && c'[1..] == c;
        assert Sieve(n', c', b) == (if names[0] in b then [] else [column[0]]) + Sieve(n, c, b);
      } else {
        assert Sieve(names, column, a) == [] + c == c && Without(names, a) == n;
      }
    }
  }

  /** The position that the j-th surviving name had before. */
  function Origin(names: seq<string>, removed: set<string>, j: nat): nat {
    if names == [] then 0
    else if names[0] in removed then 1 + Origin(names[1..], removed, j)
    else if j == 0 then 0
    else 1 + Origin(names[1..], removed, j - 1)
  }

  /** A surviving name keeps its own entry. */
  lemma {:induction false} SieveKeeps(names: seq<string>, column: seq<string>, removed: set<string>, j: nat)
    requires |names| == |column| && j < |Sieve(names, column, removed)|
    ensures |Without(names, removed)| == |Sieve(names, column, removed)|
    ensures var i := Origin(names, removed, j);
            i < |names| && names[i] == Without(names, removed)[j] && column[i] == Sieve(names, column, removed)[j]
  {
    SieveLength(names, column, removed);
    SieveLength(names[1..], column[1..], removed);
    if names[0] in removed {
      SieveKeeps(names[1..], column[1..], removed, j);
    } else if j > 0 {
      SieveKeeps(names[1..], column[1..], removed, j - 1);
    }
  }

  // ---------------------------------------------------------------- alignment

  /** The metadata lists one SoC entry for each record. */
  ghost predicate Aligned(c: Context) {
    && NoDuplicates(c.records)
    && FindProp(c.props) < |c.props|
    && WellFormed(Value(c))
    && |Entries(Value(c), 4)| == |c.records|
  }

  function Value(c: Context): string
    requires FindProp(c.props) < |c.props|
  {
    c.props[FindProp(c.props)].value
  }

  lemma EntriesFree(value: string, f: nat)
    requires f < |Fields(value)|
    ensures AllFree(Entries(value, f), ',') && AllFree(Entries(value, f), ':')
  {
    SplitFree(value, ':');
    SplitFree(Fields(value)[f], ',');
    SplitKeepsFree(Fields(value)[f], ',', ':');
  }

  lemma PickFree(column: seq<string>, keep: seq<nat>, c: char)
    requires AllFree(column, c) && forall j :: 0 <= j < |keep| ==> keep[j] < |column|
    ensures AllFree(Pick(column, keep), c)
  {
    forall j | 0 <= j < |keep| ensures Free(Pick(column, keep)[j], c) { assert Free(column[keep[j]], c); }
  }

  /** The edited value reads back as the kept entries, between the other fields as they were. */
  lemma KeptReadBack(value: string, keep: seq<nat>)
    requires WellFormed(value) && forall j :: 0 <= j < |keep| ==> keep[j] < |Entries(value, 4)|
    ensures var v := KeepEntries(value, keep);
            && |Fields(v)| == 8
            && (forall f :: 0 <= f < 8 && !(4 <= f <= 6) ==> Fields(v)[f] == Fields(value)[f])
            && (forall f :: 4 <= f <= 6 ==>
                  Entries(v, f) == if keep == [] then [""] else Pick(Entries(value, f), keep))
  {
    hide Split, Join, Pick, AllFree;
    var a, b, c := Join(Pick(Entries(value, 4), keep), ','), Join(Pick(Entries(value, 5), keep), ','),
                   Join(Pick(Entries(value, 6), keep), ',');
    var fields := Fields(value)[4 := a][5 := b][6 := c];
    ColumnReadBack(value, 4, keep);
    ColumnReadBack(value, 5, keep);
    ColumnReadBack(value, 6, keep);
    FieldsFree(value, a, b, c);
    SplitJoin(fields, ':');
  }

  lemma FieldsFree(value: string, a: string, b: string, c: string)
    requires |Fields(value)| == 8 && Free(a, ':') && Free(b, ':') && Free(c, ':')
    ensures AllFree(Fields(value)[4 := a][5 := b][6 := c], ':')
  {
    SplitFree(value, ':');
  }

  lemma ColumnReadBack(value: string, f: nat, keep: seq<nat>)
    requires f < |Fields(value)| && forall j :: 0 <= j < |keep| ==> keep[j] < |Entries(value, f)|
    ensures var joined := Join(Pick(Entries(value, f), keep), ',');
            && Free(joined, ':')
            && Split(joined, ',') == if keep == [] then [""] else Pick(Entries(value, f), keep)
  {
    hide Split, Pick;
    var kept := Pick(Entries(value, f), keep);
    EntriesFree(value, f);
    PickFree(Entries(value, f), keep, ',');
    PickFree(Entries(value, f), keep, ':');
    JoinFree(kept, ',', ':');
    if keep != [] { SplitJoin(kept, ','); } else { SplitOfFree("", ','); }
  }

  /** A successful run removes the named records and keeps the order of the others. */
  lemma RunRecords(c: Context, names: seq<string>)
    requires NoDuplicates(c.records) && RemoveNamed(c, names).Ok?
    ensures var c', removed := RemoveNamed(c, names).value, ToSet(names);
            && c'.records == Without(c.records, removed)
            && SortedNames(c'.records) == Without(SortedNames(c.records), removed)
            && NoDuplicates(c'.records)
    ensures forall n :: n in names ==> n in c.records
  {
    hide RemoveMetadata, Indices, Sort, NaturalLeq, Filter;
    var removed := ToSet(names);
    DropRecordsIs(c.records, names);
    NaturalLeqIsPreorder();
    SortFilter(NaturalLeq, NotIn(removed), c.records);
    WithoutDistinct(c.records, removed);
  }

  /** On aligned artifacts it keeps, in all three lists, the entries of the records it keeps. */
  lemma RunMetadata(c: Context, names: seq<string>) returns (keep: seq<nat>)
    requires Aligned(c) && names != [] && forall n :: n in names ==> n in c.records
    ensures forall j :: 0 <= j < |keep| ==> keep[j] < |Entries(Value(c), 4)|
    ensures Indices(SortedNames(c.records), names).Ok?
    ensures RemoveMetadata(c.props, Indices(SortedNames(c.records), names).value)
            == Ok(c.props[FindProp(c.props) := Prop(CompatKey, KeepEntries(Value(c), keep))])
    ensures forall f :: 4 <= f <= 6 ==> |Entries(Value(c), f)| == |SortedNames(c.records)|
    ensures forall f :: 4 <= f <= 6 ==>
              Pick(Entries(Value(c), f), keep) == Sieve(SortedNames(c.records), Entries(Value(c), f), ToSet(names))
  {
    hide SortedNames, Split, Join, KeepFrom, Pick, Sieve, DropRecords, Indices;
    var sorted, value := SortedNames(c.records), Value(c);
    SortedDistinct(c.records);
    IndicesAre(sorted, names);
    var indices := Indices(sorted, names).value;
    keep := KeepFrom(0, |sorted|, indices);
    forall f | 4 <= f <= 6 ensures Pick(Entries(value, f), keep) == Sieve(sorted, Entries(value, f), ToSet(names)) {
      KeepIsSieve(sorted, Entries(value, f), ToSet(names), indices, 0);
      assert sorted[0..] == sorted && Entries(value, f)[0..] == Entries(value, f);
    }
    assert indices[0] in indices && indices[0] < |sorted|;
  }

  lemma {:induction false} WithoutDistinct(s: seq<string>, removed: set<string>)
    requires NoDuplicates(s)
    ensures NoDuplicates(Without(s, removed))
  {
    if s == [] {
    } else {
      var t := s[1..];
      forall i, j | 0 <= i < j < |t| ensures t[i] != t[j] { assert s[i + 1] != s[j + 1]; }
      WithoutDistinct(t, removed);
      FilterMembers(NotIn(removed), t);
      forall k | 0 <= k < |t| ensures t[k] != s[0] { assert s[0] != s[k + 1]; }
    }
  }

  // ---------------------------------------------------------------- main results

  /** Each entry list of the edited metadata. */
  ghost predicate EntriesSieved(c: Context, c': Context, removed: set<string>)
    requires Aligned(c) && Aligned(c')
  {
    SortedDistinct(c.records);
    && FindProp(c'.props) == FindProp(c.props)
    && (forall f :: 4 <= f <= 6 ==> Entries(Value(c'), f) == Sieve(SortedNames(c.records), Entries(Value(c), f), removed))
    && (forall f :: 0 <= f < 8 && !(4 <= f <= 6) ==> Fields(Value(c'))[f] == Fields(Value(c))[f])
    && |c'.props| == |c.props|
    && (forall k :: 0 <= k < |c.props| && k != FindProp(c.props) ==> c'.props[k] == c.props[k])
  }

  lemma {:induction false} SieveNone(names: seq<string>, column: seq<string>)
    requires |names| == |column|
    ensures Sieve(names, column, {}) == column
  {
    if names == [] {
    } else {
      SieveNone(names[1..], column[1..]);
    }
  }

  lemma FindPropSame(props: seq<Prop>, value: string)
    ensures FindProp(props) < |props| ==> FindProp(props[FindProp(props) := Prop(CompatKey, value)]) == FindProp(props)
  {
    var k := FindProp(props);
    if k < |props| {
      var props' := props[k := Prop(CompatKey, value)];
      assert props'[k].key == CompatKey;
      assert forall i :: 0 <= i < k ==> props'[i] == props[i];
    }
  }

  lemma NamedKeepsAlignment(c: Context, names: seq<string>)
    requires Aligned(c) && RemoveNamed(c, names).Ok?
    ensures var c' := RemoveNamed(c, names).value;
            && (Aligned(c') <==> c'.records != [])
            && (Aligned(c') ==> EntriesSieved(c, c', ToSet(names)))
  {
    hide SortedNames, Split, Join, Pick, RemoveNamed, NoDuplicates, Filter;
    var c', removed, sorted := RemoveNamed(c, names).value, ToSet(names), SortedNames(c.records);
    RunRecords(c, names);
    SortedDistinct(c.records);
    SortedDistinct(c'.records);
    if names == [] {
      NothingRequested(c);
      assert removed == {};
      forall f | 4 <= f <= 6 ensures Entries(Value(c), f) == Sieve(sorted, Entries(Value(c), f), removed) {
        SieveNone(sorted, Entries(Value(c), f));
      }
    } else {
      var keep := RunMetadata(c, names);
      RunProps(c, names);
      FindPropSame(c.props, KeepEntries(Value(c), keep));
      KeptReadBack(Value(c), keep);
      SieveLength(sorted, Entries(Value(c), 4), removed);
      assert |keep| == |c'.records|;
    }
  }

  lemma NothingRequested(c: Context)
    ensures RemoveNamed(c, []) == Ok(c)
  {
  }

  lemma RunProps(c: Context, names: seq<string>)
    requires RemoveNamed(c, names).Ok?
    ensures Indices(SortedNames(c.records), names).Ok?
    ensures RemoveMetadata(c.props, Indices(SortedNames(c.records), names).value) == Ok(RemoveNamed(c, names).value.props)
  {
  }

  /** Some record is not among the names. */
  ghost predicate Survives(records: seq<string>, names: seq<string>) {
    exists n :: n in records && n !in names
  }

  lemma SurvivorsRemain(records: seq<string>, names: seq<string>)
    ensures Without(records, ToSet(names)) != [] <==> Survives(records, names)
  {
    FilterMembers(NotIn(ToSet(names)), records);
    hide Filter;
    var left := Without(records, ToSet(names));
    assert forall n :: n in left <==> n in records && n !in names;
    if left != [] { assert left[0] in left; }
  }

  /**
   A successful run on aligned artifacts leaves them aligned exactly when some record is not requested. Then
   the three lists hold the entries of the surviving records, and all else is unchanged.
   */
  lemma AlignedExactlyWhenARecordSurvives(c: Context, arg: string)
    requires Aligned(c)
    ensures match RemoveRecords(c, arg)
            case Err(_) => true
            case Ok(c') =>
              && (Aligned(c') <==> Survives(c.records, Requested(arg)))
              && (c'.records != [] <==> Survives(c.records, Requested(arg)))
              && (Aligned(c') ==> EntriesSieved(c, c', ToSet(Requested(arg))))
  {
    hide RemoveNamed, Requested, Without, Survives;
    if RemoveRecords(c, arg).Ok? {
      NamedKeepsAlignment(c, Requested(arg));
      RunRecords(c, Requested(arg));
      SurvivorsRemain(c.records, Requested(arg));
    }
  }

  /** White space around a requested name does not matter, and a blank piece requests nothing. */
  lemma RequestedOne(before: string, name: string, after: string)
    requires AllSpace(before) && AllSpace(after) && Trimmed(name) && Free(name, ',')
    ensures Requested(before + name + after) == if name == "" then [] else [name]
  {
    var piece := before + name + after;
    assert Free(piece, ',') by {
      assert forall i :: 0 <= i < |before| ==> before[i] != ',' by { assert forall i :: 0 <= i < |before| ==> IsSpace(before[i]); }
      assert forall i :: 0 <= i < |after| ==> after[i] != ',' by { assert forall i :: 0 <= i < |after| ==> IsSpace(after[i]); }
    }
    hide Split, Strip;
    SplitOfFree(piece, ',');
    StripPadding(before, name, after);
    var pieces := [piece];
    assert pieces[1..] == [] && NamesIn(pieces[1..]) == [];
    assert NamesIn(pieces) == if name == "" then [] else [name];
  }

  /** The record at sorted position j of the stripped binary has the SoC entry it had before, in all three lists. */
  lemma SurvivorsKeepTheirEntries(c: Context, names: seq<string>, j: nat) returns (i: nat)
    requires Aligned(c) && RemoveNamed(c, names).Ok? && j < |RemoveNamed(c, names).value.records|
    ensures var c' := RemoveNamed(c, names).value;
            && Aligned(c') && |SortedNames(c'.records)| == |c'.records|
            && i < |SortedNames(c.records)| == |c.records|
            && SortedNames(c.records)[i] == SortedNames(c'.records)[j]
            && forall f: nat :: 4 <= f <= 6 ==> ColumnSurvives(c, c', f, i, j)
  {
    assert NoDuplicates(c.records);
    hide *;
    var c', removed := RemoveNamed(c, names).value, ToSet(names);
    NamedKeepsAlignment(c, names);
    i := Origin(SortedNames(c.records), removed, j);
    RunRecords(c, names);
    forall f: nat | 4 <= f <= 6
      ensures ColumnSurvives(c, c', f, i, j)
    {
      ColumnKeeps(c, c', removed, f, j);
    }
    ColumnKeeps(c, c', removed, 4, j);
  }

  ghost predicate ColumnSurvives(c: Context, c': Context, f: nat, i: nat, j: nat)
    requires Aligned(c) && Aligned(c')
  {
    4 <= f <= 6 && i < |c.records| && j < |c'.records| && Entries(Value(c'), f)[j] == Entries(Value(c), f)[i]
  }

  lemma ColumnKeeps(c: Context, c': Context, removed: set<string>, f: nat, j: nat)
    requires Aligned(c) && Aligned(c') && EntriesSieved(c, c', removed) && j < |c'.records| && 4 <= f <= 6
    requires SortedNames(c'.records) == Without(SortedNames(c.records), removed)
    ensures var i := Origin(SortedNames(c.records), removed, j);
            && ColumnSurvives(c, c', f, i, j)
            && |SortedNames(c'.records)| == |c'.records| && i < |SortedNames(c.records)| == |c.records|
            && SortedNames(c.records)[i] == SortedNames(c'.records)[j]
  {
    hide SortedNames, Split, Sieve, Filter, NoDuplicates;
    SortedDistinct(c.records);
    SortedDistinct(c'.records);
    SieveKeeps(SortedNames(c.records), Entries(Value(c), f), removed, j);
  }

  lemma {:induction false} NamesAppend(a: seq<string>, b: seq<string>)
    ensures NamesIn(a + b) == NamesIn(a) + NamesIn(b)
  {
    hide Strip;
    if a == [] {
      assert a + b == b;
    } else {
      assert (a + b)[1..] == a[1..] + b;
      NamesAppend(a[1..], b);
    }
  }

  lemma RequestedAppend(a: string, b: string)
    ensures Requested(a + "," + b) == Requested(a) + Requested(b)
  {
    SplitAppend(a, b, ',');
    NamesAppend(Split(a, ','), Split(b, ','));
  }

  /** The combined request is accepted by the binary and removes the same records. */
  lemma {:induction false} CombinedRecords(records: seq<string>, a: seq<string>, b: seq<string>)
    requires DropRecords(records, a).Ok?
    ensures DropRecords(records, a + b) == DropRecords(DropRecords(records, a).value, b)
    decreases |a|
  {
    if a == [] {
      assert a + b == b;
    } else {
      assert (a + b)[1..] == a[1..] + b;
      CombinedRecords(Without(records, {a[0]}), a[1..], b);
    }
  }

  /** Two edits of the lists are one: what the second picks from the first is what the combined edit picks. */
  lemma CombinedValue(value: string, value1: string, keep2: seq<nat>, keep: seq<nat>)
    requires WellFormed(value) && WellFormed(value1)
    requires forall j :: 0 <= j < |keep| ==> keep[j] < |Entries(value, 4)|
    requires forall j :: 0 <= j < |keep2| ==> keep2[j] < |Entries(value1, 4)|
    requires forall f :: 0 <= f < 8 && !(4 <= f <= 6) ==> Fields(value1)[f] == Fields(value)[f]
    requires forall f :: 4 <= f <= 6 ==> Pick(Entries(value1, f), keep2) == Pick(Entries(value, f), keep)
    ensures KeepEntries(value1, keep2) == KeepEntries(value, keep)
  {
    hide Split, Join, Pick;
    var a, b, c := Join(Pick(Entries(value, 4), keep), ','), Join(Pick(Entries(value, 5), keep), ','),
                   Join(Pick(Entries(value, 6), keep), ',');
    assert Pick(Entries(value1, 4), keep2) == Pick(Entries(value, 4), keep);
    assert Pick(Entries(value1, 5), keep2) == Pick(Entries(value, 5), keep);
    assert Pick(Entries(value1, 6), keep2) == Pick(Entries(value, 6), keep);
    assert Fields(value1)[4 := a][5 := b][6 := c] == Fields(value)[4 := a][5 := b][6 := c];
  }

  lemma CombinedNames(c: Context, a: seq<string>, b: seq<string>)
    requires Aligned(c) && RemoveNamed(c, a).Ok?
    requires var c1 := RemoveNamed(c, a).value; Aligned(c1) && RemoveNamed(c1, b).Ok?
    ensures RemoveNamed(c, a + b) == RemoveNamed(RemoveNamed(c, a).value, b)
  {
    var c1 := RemoveNamed(c, a).value;
    if a == [] {
      NothingRequested(c);
      assert a + b == b;
    } else if b == [] {
      NothingRequested(c1);
      assert a + b == a;
    } else {
      CombinedEdits(c, a, b);
    }
  }

  lemma CombinedPicks(c: Context, c1: Context, a: seq<string>, b: seq<string>, f: nat)
    requires Aligned(c) && Aligned(c1) && EntriesSieved(c, c1, ToSet(a)) && 4 <= f <= 6
    requires SortedNames(c1.records) == Without(SortedNames(c.records), ToSet(a))
    ensures |Entries(Value(c), f)| == |SortedNames(c.records)| && |Entries(Value(c1), f)| == |SortedNames(c1.records)|
    ensures Sieve(SortedNames(c1.records), Entries(Value(c1), f), ToSet(b))
            == Sieve(SortedNames(c.records), Entries(Value(c), f), ToSet(a + b))
  {
    hide SortedNames, Split, Sieve, Filter, NoDuplicates;
    SortedDistinct(c.records);
    SortedDistinct(c1.records);
    SieveTwice(SortedNames(c.records), Entries(Value(c), f), ToSet(a), ToSet(b));
    assert ToSet(a) + ToSet(b) == ToSet(a + b);
  }

  /** The metadata after both runs is the metadata after the combined one. */
  lemma CombinedMetadata(c: Context, c1: Context, a: seq<string>, b: seq<string>)
    requires a != [] && b != [] && Aligned(c) && Aligned(c1) && EntriesSieved(c, c1, ToSet(a))
    requires SortedNames(c1.records) == Without(SortedNames(c.records), ToSet(a))
    requires forall n :: n in a + b ==> n in c.records
    requires forall n :: n in b ==> n in c1.records
    requires c1.props == c.props[FindProp(c.props) := Prop(CompatKey, Value(c1))]
    ensures Indices(SortedNames(c.records), a + b).Ok? && Indices(SortedNames(c1.records), b).Ok?
    ensures RemoveMetadata(c.props, Indices(SortedNames(c.records), a + b).value)
            == RemoveMetadata(c1.props, Indices(SortedNames(c1.records), b).value)
  {
    hide SortedNames, Split, Sieve, Filter, NoDuplicates, Indices, RemoveMetadata, KeepEntries, Pick, Join, ToSet;
    var keep2 := RunMetadata(c1, b);
    var keep := RunMetadata(c, a + b);
    var k, v, v1 := FindProp(c.props), Value(c), Value(c1);
    forall f: nat | 4 <= f <= 6 ensures Pick(Entries(v1, f), keep2) == Pick(Entries(v, f), keep) {
      CombinedPicks(c, c1, a, b, f);
    }
    CombinedValue(v, v1, keep2, keep);
    assert c1.props[k := Prop(CompatKey, KeepEntries(v, keep))] == c.props[k := Prop(CompatKey, KeepEntries(v, keep))];
  }

  lemma CombinedEdits(c: Context, a: seq<string>, b: seq<string>)
    requires a != [] && b != [] && Aligned(c) && RemoveNamed(c, a).Ok?
    requires var c1 := RemoveNamed(c, a).value; Aligned(c1) && RemoveNamed(c1, b).Ok?
    ensures RemoveNamed(c, a + b) == RemoveNamed(RemoveNamed(c, a).value, b)
  {
    hide SortedNames, WellFormed, Value, Indices, RemoveMetadata, KeepEntries, ToSet, EntriesSieved, Filter, FindProp;
    var c1 := RemoveNamed(c, a).value;
    RunRecords(c, a);
    RunRecords(c1, b);
    NamedKeepsAlignment(c, a);
    CombinedRecords(c.records, a, b);
    RemovedAreMembers(c.records, ToSet(a), c1.records);
    assert forall n :: n in a + b ==> n in c.records;
    OnlyValueChanges(c, a);
    CombinedMetadata(c, c1, a, b);
  }

  lemma RemovedAreMembers(records: seq<string>, removed: set<string>, left: seq<string>)
    requires left == Without(records, removed)
    ensures forall n :: n in left ==> n in records
  {
    FilterMembers(NotIn(removed), records);
  }

  lemma OnlyValueChanges(c: Context, a: seq<string>)
    requires a != [] && Aligned(c)
    ensures match RemoveNamed(c, a)
            case Err(_) => true
            case Ok(c1) => Aligned(c1) ==> c1.props == c.props[FindProp(c.props) := Prop(CompatKey, Value(c1))]
  {
    hide SortedNames, WellFormed, Indices, RemoveMetadata, RemoveNamed, KeepEntries, Split, NoDuplicates, Filter;
    if RemoveNamed(c, a).Ok? && Aligned(RemoveNamed(c, a).value) {
      RunRecords(c, a);
      RunProps(c, a);
      var keep := RunMetadata(c, a);
      FindPropSame(c.props, KeepEntries(Value(c), keep));
    }
  }

  /**
   Removing the records of `a` and then those of `b`, in two runs, gives the same binary and the
   same metadata as one run that removes both, as long as a record survives the first run.
   */
  lemma TwoRunsAreOne(c: Context, a: string, b: string)
    requires Aligned(c)
    ensures var one := RemoveRecords(c, a);
            Survives(c.records, Requested(a)) && one.Ok? && RemoveRecords(one.value, b).Ok? ==>
            RemoveRecords(c, a + "," + b) == RemoveRecords(one.value, b)
  {
    hide RemoveNamed, Requested, Aligned, Survives;
    AlignedExactlyWhenARecordSurvives(c, a);
    RequestedAppend(a, b);
    if Survives(c.records, Requested(a)) && RemoveRecords(c, a).Ok? && RemoveRecords(RemoveRecords(c, a).value, b).Ok? {
      CombinedNames(c, Requested(a), Requested(b));
    }
  }

  lemma NamedSucceeds(c: Context, names: seq<string>)
    requires NoDuplicates(c.records)
    ensures RemoveNamed(c, names).Ok? ==> Removable(c.records, names)
    ensures (Aligned(c) || names == []) && Removable(c.records, names) ==> RemoveNamed(c, names).Ok?
  {
    DropRecordsIs(c.records, names);
    if names == [] {
      NothingRequested(c);
    } else if Aligned(c) && Removable(c.records, names) {
      var keep := RunMetadata(c, names);
    }
    hide Aligned, Indices, RemoveMetadata, DropRecords, SortedNames;
  }

  /** On aligned artifacts a removal succeeds exactly when every requested name is a record and none is repeated. */
  lemma RemovalSucceedsExactly(c: Context, arg: string)
    requires Aligned(c)
    ensures RemoveRecords(c, arg).Ok? <==> Removable(c.records, Requested(arg))
  {
    NamedSucceeds(c, Requested(arg));
    hide RemoveNamed, Requested;
  }

  /** One run with both lists of names succeeds exactly when the two runs one after the other do. */
  lemma OneRunSucceedsAsTwo(c: Context, a: string, b: string)
    requires Aligned(c)
    ensures RemoveRecords(c, a + "," + b).Ok? <==>
            RemoveRecords(c, a).Ok? && RemoveRecords(RemoveRecords(c, a).value, b).Ok?
  {
    hide RemoveNamed, Requested, Removable, Filter;
    var x, y := Requested(a), Requested(b);
    RequestedAppend(a, b);
    RemovalSucceedsExactly(c, a);
    RemovalSucceedsExactly(c, a + "," + b);
    RemovableAppend(c.records, x, y);
    if RemoveRecords(c, a).Ok? {
      var first := RemoveRecords(c, a).value;
      RunRecords(c, x);
      AlignedExactlyWhenARecordSurvives(c, a);
      NamedSucceeds(first, y);
      NoneRemovable(first.records, y);
    }
  }

  lemma NoneRemovable(records: seq<string>, names: seq<string>)
    ensures records == [] && Removable(records, names) ==> names == []
  {
    if names != [] { assert names[0] in names; }
  }

  /** Artifacts with as many SoC entries as records are aligned, whatever the other fields hold. */
  lemma WrittenIsAligned(records: seq<string>, before: seq<string>, dsp: seq<string>, soc: seq<string>, vtcm: seq<string>, last: string)
    requires NoDuplicates(records) && records != [] && |dsp| == |soc| == |vtcm| == |records|
    requires |before| == 4 && before[0] == "v2" && AllFree(before, ':') && Free(last, ':')
    requires AllFree(dsp, ',') && AllFree(soc, ',') && AllFree(vtcm, ',') && AllFree(dsp, ':') && AllFree(soc, ':') && AllFree(vtcm, ':')
    ensures var value := Join(before + [Join(dsp, ','), Join(soc, ','), Join(vtcm, ','), last], ':');
            && Aligned(Context(records, [Prop(CompatKey, value)]))
            && Entries(value, 4) == dsp && Entries(value, 5) == soc && Entries(value, 6) == vtcm
  {
    hide Split, Join, AllFree, Free, NoDuplicates;
    var a, b, d := Join(dsp, ','), Join(soc, ','), Join(vtcm, ',');
    JoinFree(dsp, ',', ':');
    JoinFree(soc, ',', ':');
    JoinFree(vtcm, ',', ':');
    WrittenFields(before, a, b, d, last);
    SplitJoin(dsp, ',');
    SplitJoin(soc, ',');
    SplitJoin(vtcm, ',');
    var value := Join(before + [a, b, d, last], ':');
    assert FindProp([Prop(CompatKey, value)]) == 0;
  }

  lemma WrittenFields(before: seq<string>, a: string, b: string, d: string, last: string)
    requires |before| == 4 && AllFree(before, ':') && Free(a, ':') && Free(b, ':') && Free(d, ':') && Free(last, ':')
    ensures Fields(Join(before + [a, b, d, last], ':')) == before + [a, b, d, last]
  {
    hide Split, Join, Free;
    assert AllFree(before + [a, b, d, last], ':');
    SplitJoin(before + [a, b, d, last], ':');
  }

  /** Removing the only record: the lists are left with one empty entry, for no record. */
  lemma OnlyRecordRemoved() returns (c: Context)
    ensures Aligned(c) && c.records == ["cache_1"] && RemoveRecords(c, "cache_1").Ok?
    ensures var c' := RemoveRecords(c, "cache_1").value; c'.records == [] && !Aligned(c')
  {
    var value := Join(["v2", "", "", ""] + [Join(["68"], ','), Join(["1"], ','), Join(["8"], ','), ""], ':');
    c := Context(["cache_1"], [Prop(CompatKey, value)]);
    WrittenIsAligned(["cache_1"], ["v2", "", "", ""], ["68"], ["1"], ["8"], "");
    RequestedOne("", "cache_1", "");
    assert "" + "cache_1" + "" == "cache_1";
    hide Aligned, RemoveNamed, Requested, Join;
    RemovalSucceedsExactly(c, "cache_1");
    AlignedExactlyWhenARecordSurvives(c, "cache_1");
  }

  // ---------------------------------------------------------------- one numbered record

  lemma {:induction false} SieveOne(names: seq<string>, column: seq<string>, k: nat)
    requires |names| == |column| && k < |names| && NoDuplicates(names)
    ensures Sieve(names, column, {names[k]}) == column[..k] + column[k + 1..]
  {
    var rest, more := names[1..], column[1..];
    assert forall i, j :: 0 <= i < j < |rest| ==> rest[i] == names[i + 1] && rest[j] == names[j + 1];
    if k == 0 {
      SieveOther(rest, more, {names[0]});
    } else {
      SieveOne(rest, more, k - 1);
      assert rest[k - 1] == names[k];
      assert column[..k] + column[k + 1..] == [column[0]] + (more[..k - 1] + more[k..]);
    }
  }

  lemma {:induction false} SieveOther(names: seq<string>, column: seq<string>, removed: set<string>)
    requires |names| == |column| && forall i :: 0 <= i < |names| ==> names[i] !in removed
    ensures Sieve(names, column, removed) == column
  {
    if names == [] {
    } else {
      SieveOther(names[1..], column[1..], removed);
    }
  }

  /**
   Of records with consecutive numbers, in whatever order the binary holds them, the removal of the k-th by
   number takes the k-th entry out of each of the three lists.
   */
  lemma NumberedRecordLosesItsEntry(c: Context, prefix: string, first: nat, k: nat, f: nat)
    requires Aligned(c) && |c.records| >= 2 && k < |c.records| && 4 <= f <= 6
    requires !EndsInDigit(prefix) && multiset(c.records) == multiset(Numbered(prefix, first, |c.records|))
    ensures match RemoveNamed(c, [prefix + Decimal(first + k)])
            case Err(_) => false
            case Ok(c') => Aligned(c') && Entries(Value(c'), f) == Entries(Value(c), f)[..k] + Entries(Value(c), f)[k + 1..]
  {
    hide EndsInDigit, Decimal, Numbered, SortedNames, Split, Sieve, RemoveNamed, Filter, EntriesSieved;
    var name, sorted := prefix + Decimal(first + k), SortedNames(c.records);
    ConsecutiveRecords(c.records, prefix, first);
    SortedDistinct(c.records);
    assert sorted[k] == name && name in c.records;
    var names := [name];
    assert Removable(c.records, names);
    NamedSucceeds(c, names);
    var c' := RemoveNamed(c, names).value;
    NamedKeepsAlignment(c, names);
    RunRecords(c, names);
    OtherSurvives(c.records, sorted, names, k);
    SurvivorsRemain(c.records, names);
    assert ToSet(names) == {name};
    ColumnSieved(c, c', {name}, f);
    SieveOne(sorted, Entries(Value(c), f), k);
  }

  lemma ColumnSieved(c: Context, c': Context, removed: set<string>, f: nat)
    requires Aligned(c) && Aligned(c') && EntriesSieved(c, c', removed) && 4 <= f <= 6
    ensures |SortedNames(c.records)| == |Entries(Value(c), f)|
    ensures Entries(Value(c'), f) == Sieve(SortedNames(c.records), Entries(Value(c), f), removed)
  {
    hide SortedNames, Split, Sieve;
    SortedDistinct(c.records);
  }

  lemma OtherSurvives(records: seq<string>, sorted: seq<string>, names: seq<string>, k: nat)
    requires |sorted| >= 2 && k < |sorted| && names == [sorted[k]] && NoDuplicates(sorted)
    requires forall x :: x in sorted <==> x in records
    ensures Survives(records, names)
  {
    var j := if k == 0 then 1 else 0;
    assert sorted[j] != sorted[k] && sorted[j] in sorted;
    assert sorted[j] in records && sorted[j] !in names;
  }

  // ---------------------------------------------------------------- why a removal is refused

  lemma {:induction false} FirstUnknown(sorted: seq<string>, names: seq<string>)
    ensures match Indices(sorted, names)
            case Ok(_) => true
            case Err(e) => exists k :: 0 <= k < |names| && e == UnknownRecord(names[k]) && names[k] !in sorted
                                       && forall j :: 0 <= j < k ==> names[j] in sorted
  {
    hide IndexOf;
    if names != [] && names[0] in sorted {
      FirstUnknown(sorted, names[1..]);
      match Indices(sorted, names[1..])
      case Ok(_) =>
      case Err(e) =>
        var k :| 0 <= k < |names[1..]| && e == UnknownRecord(names[1..][k]) && names[1..][k] !in sorted
                 && forall j :: 0 <= j < k ==> names[1..][j] in sorted;
        assert names[k + 1] == names[1..][k];
        forall j | 0 <= j < k + 1 ensures names[j] in sorted {
          if j > 0 { assert names[j] == names[1..][j - 1]; }
        }
    } else if names != [] {
      assert Indices(sorted, names) == Err(UnknownRecord(names[0]));
    }
  }

  lemma {:induction false} RepeatedName(records: seq<string>, names: seq<string>)
    requires forall n :: n in names ==> n in records
    ensures match DropRecords(records, names)
            case Ok(_) => true
            case Err(e) => exists k :: 0 <= k < |names| && e == RemovalFailed(names[k]) && names[k] in names[..k]
    decreases |names|
  {
    DropRecordsFails(records, names);
    match DropRecords(records, names)
    case Ok(_) =>
    case Err(e) =>
      var k :| 0 <= k < |names| && e == RemovalFailed(names[k]) && names[k] !in Without(records, ToSet(names[..k]));
      FilterMembers(NotIn(ToSet(names[..k])), records);
      assert names[k] in records;
  }

  lemma {:induction false} DropRecordsFails(records: seq<string>, names: seq<string>)
    ensures match DropRecords(records, names)
            case Ok(_) => true
            case Err(e) => exists k :: 0 <= k < |names| && e == RemovalFailed(names[k]) && names[k] !in Without(records, ToSet(names[..k]))
    decreases |names|
  {
    hide Filter;
    if names == [] {
    } else if names[0] !in records {
      assert ToSet(names[..0]) == {};
      WithoutNone(records);
    } else {
      var left, rest := Without(records, {names[0]}), names[1..];
      DropRecordsFails(left, rest);
      match DropRecords(left, rest)
      case Ok(_) =>
      case Err(e) =>
        var k :| 0 <= k < |rest| && e == RemovalFailed(rest[k]) && rest[k] !in Without(left, ToSet(rest[..k]));
        WithoutTwice(records, {names[0]}, ToSet(rest[..k]));
        assert names[..k + 1] == [names[0]] + rest[..k];
        assert {names[0]} + ToSet(rest[..k]) == ToSet(names[..k + 1]);
        assert rest[k] == names[k + 1];
    }
  }

  lemma SortedMembers(records: seq<string>)
    ensures forall x :: x in SortedNames(records) <==> x in records
  {
    NaturalLeqIsPreorder();
    SortSorts(NaturalLeq, records);
    hide NaturalLeq, Sort;
    var sorted := SortedNames(records);
    forall x ensures x in sorted <==> x in records {
      assert x in sorted <==> x in multiset(sorted);
      assert x in records <==> x in multiset(records);
    }
  }

  lemma {:induction false} IndexOfIsLast(names: seq<string>, name: string)
    requires name in names
    ensures name !in names[IndexOf(names, name) + 1..]
  {
    var n := |names| - 1;
    if names[n] != name {
      var before := names[..n];
      assert name in before by {
        var i :| 0 <= i < |names| && names[i] == name;
        assert before[i] == name;
      }
      IndexOfIsLast(before, name);
      var i := IndexOf(before, name);
      assert names[i + 1..] == before[i + 1..] + [names[n]];
    }
  }

  /** The indices are the last positions of the requested names. */
  lemma {:induction false} LastIndices(sorted: seq<string>, names: seq<string>)
    ensures Indices(sorted, names).Ok? ==> forall n :: n in names ==> n in sorted
    ensures Indices(sorted, names).Ok? ==>
            forall i: nat :: i in Indices(sorted, names).value <==> i < |sorted| && !NotLast(sorted, names, i)
  {
    hide IndexOf;
    if names != [] && Indices(sorted, names).Ok? {
      LastIndices(sorted, names[1..]);
      var at, rest := IndexOf(sorted, names[0]), Indices(sorted, names[1..]).value;
      assert names == [names[0]] + names[1..];
      IndexOfIsLast(sorted, names[0]);
      forall i: nat ensures i in [at] + rest <==> i < |sorted| && !NotLast(sorted, names, i) {
        if i < |sorted| && sorted[i] == names[0] { LastIsOne(sorted, names[0], i, at); }
      }
    }
  }

  lemma LastIsOne(sorted: seq<string>, name: string, i: nat, at: nat)
    requires i < |sorted| && at < |sorted| && sorted[i] == name == sorted[at] && name !in sorted[at + 1..]
    ensures name in sorted[i + 1..] <==> i != at
  {
    if i < at { assert sorted[i + 1..][at - i - 1] == name; }
  }

  /**
   Whatever the artifacts: a removal is refused for the first requested name that is no record; for a metadata
   value that has not eight fields, not this version, or lists of unequal lengths; when none of the requested
   records has an entry; or for a name that is requested again.
   */
  lemma RefusedFor(c: Context, names: seq<string>)
    ensures match RemoveNamed(c, names)
            case Ok(_) => true
            case Err(e) =>
              match e
              case UnknownRecord(n) =>
                exists k :: 0 <= k < |names| && n == names[k] && n !in c.records && forall j :: 0 <= j < k ==> names[j] in c.records
              case RemovalFailed(n) => exists k :: 0 <= k < |names| && n == names[k] && n in names[..k]
              case WrongFieldCount => FindProp(c.props) < |c.props| && |Split(Value(c), ':')| != 8
              case UnsupportedVersion =>
                FindProp(c.props) < |c.props| && |Split(Value(c), ':')| == 8 && Split(Value(c), ':')[0] != "v2"
              case MismatchedLists =>
                && FindProp(c.props) < |c.props| && |Split(Value(c), ':')| == 8 && Split(Value(c), ':')[0] == "v2"
                && var n := |Split(Split(Value(c), ':')[4], ',')|;
                   |Split(Split(Value(c), ':')[5], ',')| != n || |Split(Split(Value(c), ':')[6], ',')| != n
              case NothingMapped =>
                && names != [] && FindProp(c.props) < |c.props| && WellFormed(Value(c))
                && forall i :: 0 <= i < |SortedNames(c.records)| && i < |Entries(Value(c), 4)| ==> NotLast(SortedNames(c.records), names, i)
  {
    hide SortedNames, Split, Join, Indices, DropRecords, Pick, KeepFrom, IndexOf;
    SortedMembers(c.records);
    var sorted := SortedNames(c.records);
    NoIndices(sorted);
    FirstUnknown(sorted, names);
    if Indices(sorted, names).Ok? {
      LastIndices(sorted, names);
      RepeatedName(c.records, names);
    }
  }

  /** Position i is not that of a requested record; of a repeated name the last position counts. */
  ghost predicate NotLast(sorted: seq<string>, names: seq<string>, i: int) {
    0 <= i < |sorted| && (sorted[i] !in names || sorted[i] in sorted[i + 1..])
  }

}
