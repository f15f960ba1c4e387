/**
 Parsing a request: the notification attributes in its query segments and the data model path in
 its path segments.

 The attribute parser fills a record flag by flag and stops at the first bad segment. Proved: it
 accepts exactly the queries whose segments are all valid and name different attributes, and the
 order of the segments makes no difference to the answer or to the record.
 */
module QueryAttributes {
  import opened Ids
  import UriPath

  /** A double as the parser can produce it. */
  datatype Double = NaN | Infinity(negative: bool) | Finite(value: real)

  /** How texts become numbers; the C library's conversions are not part of this model. */
  datatype NumberSyntax = NumberSyntax(integer: string -> Option<int>, double: string -> Option<Double>)

  // ----- One segment -----

  datatype Attribute = PMin | PMax | EPMin | EPMax | GreaterThan | LessThan | Step | Con

  datatype Value = Period(seconds: int) | Threshold(limit: Double) | Confirmable(con: int)

  const PERIOD_NONE: int := -1
  const CON_DEFAULT: int := -1
  const CON_NON: int := 0
  const CON_CON: int := 1

  /** Longest segment that fits the parser's buffer. */
  const MAX_SEGMENT: nat := 255

  /** The text of a character buffer: up to the first null character. */
  function Text(s: string): string {
    if s == "" || s[0] == '\0' then "" else [s[0]] + Text(s[1..])
  }

  /** Up to the first equals sign, and after it if there is one. */
  function SplitQuery(s: string): (kv: (string, Option<string>))
    ensures kv.1.None? ==> kv.0 == s && '=' !in s
    ensures kv.1.Some? ==> s == kv.0 + "=" + kv.1.value && '=' !in kv.0
  {
    if s == "" then ("", None)
    else if s[0] == '=' then ("", Some(s[1..]))
    else var (key, value) := SplitQuery(s[1..]); ([s[0]] + key, value)
  }

  function AttributeOf(key: string): Option<Attribute> {
    if key == "pmin" then Some(PMin)
    else if key == "pmax" then Some(PMax)
    else if key == "epmin" then Some(EPMin)
    else if key == "epmax" then Some(EPMax)
    else if key == "gt" then Some(GreaterThan)
    else if key == "lt" then Some(LessThan)
    else if key == "st" then Some(Step)
    else if key == "con" then Some(Con)
    else None
  }

  /** The conversion to a 32-bit signed integer, which wraps. */
  function ToInt32(n: int): int {
    (n + 0x8000_0000) % 0x1_0000_0000 - 0x8000_0000
  }

  function PeriodValue(syntax: NumberSyntax, text: Option<string>): Option<Value> {
    if text.None? then Some(Period(PERIOD_NONE)) else
      match syntax.integer(text.value)
      case None => None
      case Some(n) => if n < 0 then None else Some(Period(ToInt32(n)))
  }

  function ThresholdValue(syntax: NumberSyntax, text: Option<string>): Option<Value> {
    if text.None? then Some(Threshold(NaN)) else
      match syntax.double(text.value)
      case None => None
      case Some(d) => if d.NaN? then None else Some(Threshold(d))
  }

  function ConValue(text: Option<string>): Option<Value> {
    if text.None? then Some(Confirmable(CON_DEFAULT))
    else if text.value == "0" then Some(Confirmable(CON_NON))
    else if text.value == "1" then Some(Confirmable(CON_CON))
    else None
  }

  function ValueOf(syntax: NumberSyntax, attribute: Attribute, text: Option<string>): Option<Value> {
    match attribute
    case GreaterThan => ThresholdValue(syntax, text)
    case LessThan => ThresholdValue(syntax, text)
    case Step => ThresholdValue(syntax, text)
    case Con => ConValue(text)
    case _ => PeriodValue(syntax, text)
  }

  /** What one segment asks for, whatever else the query holds; None if it is not acceptable. */
  function Meaning(syntax: NumberSyntax, segment: string): Option<(Attribute, Value)> {
    if |segment| > MAX_SEGMENT then None else
      var (key, text) := SplitQuery(Text(segment));
      match AttributeOf(key)
      case None => None
      case Some(attribute) =>
        match ValueOf(syntax, attribute, text)
        case None => None
        case Some(value) => Some((attribute, value))
  }

  // ----- What segments mean -----

  lemma {:induction false} TextOfPlain(s: string)
    requires '\0' !in s
    ensures Text(s) == s
  {
    if s != "" {
      TextOfPlain(s[1..]);
    }
  }

  lemma {:induction false} SplitNamed(key: string, text: string)
    requires '=' !in key
    ensures SplitQuery(key + "=" + text) == (key, Some(text)) && SplitQuery(key) == (key, None)
  {
    if key == "" {
      assert ("=" + text)[1..] == text;
    } else {
      SplitNamed(key[1..], text);
      assert (key + "=" + text)[0] == key[0] && key[0] in key && key == [key[0]] + key[1..];
      assert (key + "=" + text)[1..] == key[1..] + "=" + text;
    }
  }

  /** A name, an equals sign and a value, or just the name. */
  lemma NamedSegment(syntax: NumberSyntax, key: string, text: string)
    requires '=' !in key && '\0' !in key && '\0' !in text && |key| + 1 + |text| <= 255
    ensures Meaning(syntax, key + "=" + text) == Named(syntax, key, Some(text))
    ensures Meaning(syntax, key) == Named(syntax, key, None)
  {
    TextOfPlain(key);
    TextOfPlain(key + "=" + text);
    SplitNamed(key, text);
  }

  ghost function Named(syntax: NumberSyntax, key: string, text: Option<string>): Option<(Attribute, Value)> {
    match AttributeOf(key)
    case None => None
    case Some(attribute) =>
      match ValueOf(syntax, attribute, text)
      case None => None
      case Some(value) => Some((attribute, value))
  }

  lemma EightNames(key: string)
    ensures AttributeOf("pmin") == Some(PMin) && AttributeOf("pmax") == Some(PMax)
    ensures AttributeOf("epmin") == Some(EPMin) && AttributeOf("epmax") == Some(EPMax)
    ensures AttributeOf("gt") == Some(GreaterThan) && AttributeOf("lt") == Some(LessThan)
    ensures AttributeOf("st") == Some(Step) && AttributeOf("con") == Some(Con)
    ensures key !in ["pmin", "pmax", "epmin", "epmax", "gt", "lt", "st", "con"] ==> AttributeOf(key) == None
  {
    assert "pmin"[1] != "pmax"[1] || "pmin"[2] != "pmax"[2];
    assert "epmin"[3] != "epmax"[3];
    assert "gt"[0] != "lt"[0] && "gt"[0] != "st"[0] && "lt"[0] != "st"[0];
  }

  /** A period in seconds, converted to a signed 32-bit number, or none at all if there is no value. */
  lemma PeriodSegment(syntax: NumberSyntax, key: string, attribute: Attribute, text: string, n: int)
    requires AttributeOf(key) == Some(attribute) && attribute in {PMin, PMax, EPMin, EPMax}
    requires '=' !in key && '\0' !in key && '\0' !in text && |key| + 1 + |text| <= 255
    requires syntax.integer(text) == Some(n) && 0 <= n < 0x1_0000_0000
    ensures Meaning(syntax, key + "=" + text) == Some((attribute, Period(if n < 0x8000_0000 then n else n - 0x1_0000_0000)))
    ensures Meaning(syntax, key) == Some((attribute, Period(-1)))
  {
    NamedSegment(syntax, key, text);
    Numbers(n);
  }

  lemma ThresholdSegment(syntax: NumberSyntax, key: string, attribute: Attribute, text: string, d: Double)
    requires AttributeOf(key) == Some(attribute) && attribute in {GreaterThan, LessThan, Step}
    requires '=' !in key && '\0' !in key && '\0' !in text && |key| + 1 + |text| <= 255
    requires syntax.double(text) == Some(d) && d != NaN
    ensures Meaning(syntax, key + "=" + text) == Some((attribute, Threshold(d)))
    ensures Meaning(syntax, key) == Some((attribute, Threshold(NaN)))
  {
    NamedSegment(syntax, key, text);
  }

  /** Numbers that fit in 31 bits stay as they are, those of 32 bits wrap. */
  lemma Numbers(n: int)
    ensures -0x8000_0000 <= n < 0x8000_0000 ==> ToInt32(n) == n
    ensures 0x8000_0000 <= n < 0x1_0000_0000 ==> ToInt32(n) == n - 0x1_0000_0000
  {
  }

  /** Whether notifications are confirmable is 0, 1 or nothing. */
  lemma ConSegment(syntax: NumberSyntax, text: string)
    requires '\0' !in text && |text| <= 251
    ensures text == "0" ==> Meaning(syntax, "con" + "=" + text) == Some((Con, Confirmable(0)))
    ensures text == "1" ==> Meaning(syntax, "con" + "=" + text) == Some((Con, Confirmable(1)))
    ensures text != "0" && text != "1" ==> Meaning(syntax, "con" + "=" + text) == None
    ensures Meaning(syntax, "con") == Some((Con, Confirmable(-1)))
  {
    EightNames("con");
    NamedSegment(syntax, "con", text);
  }

  /** Nothing else is accepted: no other name, no negative period, nothing of more than 255 characters. */
  lemma NoOtherSegment(syntax: NumberSyntax, key: string, text: string)
    requires '=' !in key && '\0' !in key && '\0' !in text
    ensures |key + "=" + text| > 255 ==> Meaning(syntax, key + "=" + text) == None
    ensures key !in ["pmin", "pmax", "epmin", "epmax", "gt", "lt", "st", "con"] ==> Meaning(syntax, key + "=" + text) == None
    ensures key in ["pmin", "pmax", "epmin", "epmax"] && (syntax.integer(text) == None || syntax.integer(text).value < 0) ==>
      Meaning(syntax, key + "=" + text) == None
    ensures key in ["gt", "lt", "st"] && (syntax.double(text) == None || syntax.double(text).value == NaN) ==>
      Meaning(syntax, key + "=" + text) == None
  {
    EightNames(key);
    if |key + "=" + text| <= 255 {
      NamedSegment(syntax, key, text);
    }
  }

  // ----- The record and its parser -----

  /** An attribute of the record: whether the query set it, and its value or default. */
  datatype Slot<T> = Slot(has: bool, value: T)

  function PeriodIn(slot: Slot<int>): Option<Value> {
    if slot.has then Some(Period(slot.value)) else None
  }

  function ThresholdIn(slot: Slot<Double>): Option<Value> {
    if slot.has then Some(Threshold(slot.value)) else None
  }

  function ConIn(slot: Slot<int>): Option<Value> {
    if slot.has then Some(Confirmable(slot.value)) else None
  }

  /** A period: an error leaves the slot alone. */
  method ParseNullablePeriod(syntax: NumberSyntax, text: Option<string>, slot: Slot<int>)
    returns (result: int, out: Slot<int>)
    ensures result == OK <==> !slot.has && PeriodValue(syntax, text).Some?
    ensures result == OK ==> out.has && PeriodValue(syntax, text) == PeriodIn(out)
    ensures result != OK ==> out == slot
  {
    if slot.has {
      return ERR, slot;
    } else if text.None? {
      return OK, Slot(true, PERIOD_NONE);
    }
    var num := syntax.integer(text.value);
    if num.None? || num.value < 0 {
      return ERR, slot;
    }
    return OK, Slot(true, ToInt32(num.value));
  }

  /** A threshold: an error may leave anything in the value, but not in the flag. */
  method ParseNullableDouble(syntax: NumberSyntax, text: Option<string>, slot: Slot<Double>)
    returns (result: int, out: Slot<Double>)
    ensures result == OK <==> !slot.has && ThresholdValue(syntax, text).Some?
    ensures result == OK ==> out.has && ThresholdValue(syntax, text) == ThresholdIn(out)
    ensures result != OK ==> out.has == slot.has
  {
    if slot.has {
      return ERR, slot;
    } else if text.None? {
      return OK, Slot(true, NaN);
    }
    var num := syntax.double(text.value);
    if num.None? || num.value.NaN? {
      var leftover: Double := *;
      return ERR, Slot(false, leftover);
    }
    return OK, Slot(true, num.value);
  }

  method ParseCon(text: Option<string>, slot: Slot<int>) returns (result: int, out: Slot<int>)
    ensures result == OK <==> !slot.has && ConValue(text).Some?
    ensures result == OK ==> out.has && ConValue(text) == ConIn(out)
    ensures result != OK ==> out == slot
  {
    if slot.has {
      return ERR, slot;
    } else if text.None? {
      return OK, Slot(true, CON_DEFAULT);
    } else if text.value == "0" {
      return OK, Slot(true, CON_NON);
    } else if text.value == "1" {
      return OK, Slot(true, CON_CON);
    }
    return ERR, slot;
  }

  class RequestAttributes {
    var minPeriod: Slot<int>
    var maxPeriod: Slot<int>
    var minEvalPeriod: Slot<int>
    var maxEvalPeriod: Slot<int>
    var greaterThan: Slot<Double>
    var lessThan: Slot<Double>
    var step: Slot<Double>
    var con: Slot<int>

    constructor ()
      ensures Clean() && forall a :: At(a) == None
    {
      minPeriod, maxPeriod := Slot(false, PERIOD_NONE), Slot(false, PERIOD_NONE);
      minEvalPeriod, maxEvalPeriod := Slot(false, PERIOD_NONE), Slot(false, PERIOD_NONE);
      greaterThan, lessThan, step := Slot(false, NaN), Slot(false, NaN), Slot(false, NaN);
      con := Slot(false, CON_DEFAULT);
    }

    function At(a: Attribute): Option<Value>
      reads this
    {
      match a
      case PMin => PeriodIn(minPeriod)
      case PMax => PeriodIn(maxPeriod)
      case EPMin => PeriodIn(minEvalPeriod)
      case EPMax => PeriodIn(maxEvalPeriod)
      case GreaterThan => ThresholdIn(greaterThan)
      case LessThan => ThresholdIn(lessThan)
      case Step => ThresholdIn(step)
      case Con => ConIn(con)
    }

    /** What is not set holds its default, so the set attributes determine the whole record. */
    ghost predicate Clean()
      reads this
    {
      && (!minPeriod.has ==> minPeriod.value == PERIOD_NONE)
      && (!maxPeriod.has ==> maxPeriod.value == PERIOD_NONE)
      && (!minEvalPeriod.has ==> minEvalPeriod.value == PERIOD_NONE)
      && (!maxEvalPeriod.has ==> maxEvalPeriod.value == PERIOD_NONE)
      && (!greaterThan.has ==> greaterThan.value == NaN)
      && (!lessThan.has ==> lessThan.value == NaN)
      && (!step.has ==> step.value == NaN)
      && (!con.has ==> con.value == CON_DEFAULT)
    }

    /** Accepts a value exactly if it is valid and its attribute is new, and then adds just that. */
    method ParseAttribute(syntax: NumberSyntax, attribute: Attribute, text: Option<string>) returns (result: int)
      requires Clean()
      modifies this
      ensures result == OK <==> old(At(attribute)).None? && ValueOf(syntax, attribute, text).Some?
      ensures result == OK ==> Clean()
      ensures result == OK ==> At(attribute) == ValueOf(syntax, attribute, text)
      ensures forall b :: b != attribute ==> At(b) == old(At(b))
    {
      match attribute
      case PMin => result := ParsePeriodAttribute(syntax, attribute, text);
      case PMax => result := ParsePeriodAttribute(syntax, attribute, text);
      case EPMin => result := ParseEvalPeriodAttribute(syntax, attribute, text);
      case EPMax => result := ParseEvalPeriodAttribute(syntax, attribute, text);
      case GreaterThan => result := ParseThresholdAttribute(syntax, attribute, text);
      case LessThan => result := ParseThresholdAttribute(syntax, attribute, text);
      case Step => result, step := ParseNullableDouble(syntax, text, step);
      case Con => result, con := ParseCon(text, con);
    }

    method ParsePeriodAttribute(syntax: NumberSyntax, attribute: Attribute, text: Option<string>) returns (result: int)
      requires Clean() && (attribute.PMin? || attribute.PMax?)
      modifies this
      ensures result == OK <==> old(At(attribute)).None? && ValueOf(syntax, attribute, text).Some?
      ensures result == OK ==> Clean() && At(attribute) == ValueOf(syntax, attribute, text)
      ensures forall b :: b != attribute ==> At(b) == old(At(b))
    {
      if attribute.PMin? {
        result, minPeriod := ParseNullablePeriod(syntax, text, minPeriod);
      } else {
        result, maxPeriod := ParseNullablePeriod(syntax, text, maxPeriod);
      }
    }

    method ParseEvalPeriodAttribute(syntax: NumberSyntax, attribute: Attribute, text: Option<string>) returns (result: int)
      requires Clean() && (attribute.EPMin? || attribute.EPMax?)
      modifies this
      ensures result == OK <==> old(At(attribute)).None? && ValueOf(syntax, attribute, text).Some?
      ensures result == OK ==> Clean() && At(attribute) == ValueOf(syntax, attribute, text)
      ensures forall b :: b != attribute ==> At(b) == old(At(b))
    {
      if attribute.EPMin? {
        result, minEvalPeriod := ParseNullablePeriod(syntax, text, minEvalPeriod);
      } else {
        result, maxEvalPeriod := ParseNullablePeriod(syntax, text, maxEvalPeriod);
      }
    }

    method ParseThresholdAttribute(syntax: NumberSyntax, attribute: Attribute, text: Option<string>) returns (result: int)
      requires Clean() && (attribute.GreaterThan? || attribute.LessThan?)
      modifies this
      ensures result == OK <==> old(At(attribute)).None? && ValueOf(syntax, attribute, text).Some?
      ensures result == OK ==> Clean() && At(attribute) == ValueOf(syntax, attribute, text)
      ensures forall b :: b != attribute ==> At(b) == old(At(b))
    {
      if attribute.GreaterThan? {
        result, greaterThan := ParseNullableDouble(syntax, text, greaterThan);
      } else {
        result, lessThan := ParseNullableDouble(syntax, text, lessThan);
      }
    }
  }

  /** The answer of a whole query, segment after segment. */
  function Parsed(syntax: NumberSyntax, segments: seq<string>): Option<map<Attribute, Value>> {
    if segments == [] then Some(map[])
    else Add(Parsed(syntax, segments[..|segments| - 1]), Meaning(syntax, segments[|segments| - 1]))
  }

  function Add(sofar: Option<map<Attribute, Value>>, m: Option<(Attribute, Value)>): Option<map<Attribute, Value>> {
    if sofar.None? || m.None? || m.value.0 in sofar.value then None
    else Some(sofar.value[m.value.0 := m.value.1])
  }

  ghost predicate Holds(attributes: RequestAttributes, m: map<Attribute, Value>)
    reads attributes
  {
    attributes.Clean() && forall a :: attributes.At(a) == if a in m then Some(m[a]) else None
  }

  method ParseAttributes(syntax: NumberSyntax, segments: seq<string>)
    returns (result: int, attributes: RequestAttributes)
    ensures fresh(attributes)
    ensures result == OK <==> Parsed(syntax, segments).Some?
    ensures result == OK ==> Holds(attributes, Parsed(syntax, segments).value)
  {
    attributes := new RequestAttributes();
    for i := 0 to |segments|
      invariant fresh(attributes)
      invariant Parsed(syntax, segments[..i]).Some?
      invariant Holds(attributes, Parsed(syntax, segments[..i]).value)
    {
      assert segments[..i + 1][..i] == segments[..i];
      var r := ERR;
      if |segments[i]| <= MAX_SEGMENT {
        var (key, text) := SplitQuery(Text(segments[i]));
        var attribute := AttributeOf(key);
        if attribute.Some? {
          r := attributes.ParseAttribute(syntax, attribute.value, text);
        }
      }
      if r != OK {
        RejectionIsFinal(syntax, segments, i + 1);
        return ERR, attributes;
      }
    }
    assert segments[..|segments|] == segments;
    return OK, attributes;
  }

  lemma {:induction false} RejectionIsFinal(syntax: NumberSyntax, segments: seq<string>, n: nat)
    requires n <= |segments| && Parsed(syntax, segments[..n]).None?
    ensures Parsed(syntax, segments).None?
    decreases |segments| - n
  {
    if n == |segments| {
      assert segments[..n] == segments;
    } else {
      assert segments[..n + 1][..n] == segments[..n];
      RejectionIsFinal(syntax, segments, n + 1);
    }
  }

  // ----- What the answer means -----

  ghost predicate AllValid(syntax: NumberSyntax, segments: seq<string>) {
    forall i :: 0 <= i < |segments| ==> Meaning(syntax, segments[i]).Some?
  }

  ghost predicate AllDifferent(syntax: NumberSyntax, segments: seq<string>)
    requires AllValid(syntax, segments)
  {
    forall i, j :: 0 <= i < j < |segments| ==>
      Meaning(syntax, segments[i]).value.0 != Meaning(syntax, segments[j]).value.0
  }

  ghost predicate Names(syntax: NumberSyntax, segments: seq<string>, a: Attribute, v: Value) {
    exists i :: 0 <= i < |segments| && Meaning(syntax, segments[i]) == Some((a, v))
  }

  /** The new segment clashes with an earlier one exactly if its attribute is already recorded. */
  lemma Clash(syntax: NumberSyntax, segments: seq<string>, m: map<Attribute, Value>, a: Attribute)
    requires AllValid(syntax, segments)
    requires forall b, v :: (b in m && m[b] == v) <==> Names(syntax, segments, b, v)
    ensures a in m <==> exists i :: 0 <= i < |segments| && Meaning(syntax, segments[i]).value.0 == a
  {
    if a in m {
      assert Names(syntax, segments, a, m[a]);
    }
    if i :| 0 <= i < |segments| && Meaning(syntax, segments[i]).value.0 == a {
      assert Names(syntax, segments, a, Meaning(syntax, segments[i]).value.1);
    }
  }

  lemma NamesAppend(syntax: NumberSyntax, segments: seq<string>, n: nat, b: Attribute, w: Value)
    requires |segments| == n + 1
    ensures Names(syntax, segments, b, w) <==>
      Names(syntax, segments[..n], b, w) || Meaning(syntax, segments[n]) == Some((b, w))
  {
    if i :| 0 <= i < |segments| && Meaning(syntax, segments[i]) == Some((b, w)) {
      assert i < n ==> segments[..n][i] == segments[i];
    }
    if i :| 0 <= i < n && Meaning(syntax, segments[..n][i]) == Some((b, w)) {
      assert segments[..n][i] == segments[i];
    }
  }

  /**
   A query is accepted exactly if every segment is valid on its own and no attribute is named
   twice; the record then holds exactly the named attributes with the named values.
   */
  lemma {:induction false} AcceptedExactly(syntax: NumberSyntax, segments: seq<string>)
    ensures Parsed(syntax, segments).Some? <==> AllValid(syntax, segments) && AllDifferent(syntax, segments)
    ensures Parsed(syntax, segments).Some? ==>
      var m := Parsed(syntax, segments).value;
      forall a, v :: (a in m && m[a] == v) <==> Names(syntax, segments, a, v)
  {
    if segments == [] {
    } else {
      var n := |segments| - 1;
      var init := segments[..n];
      AcceptedExactly(syntax, init);
      var before, last := Parsed(syntax, init), Meaning(syntax, segments[n]);
      assert AllValid(syntax, segments) <==> AllValid(syntax, init) && last.Some? by {
        assert segments == init + [segments[n]];
      }
      if before.Some? && last.Some? {
        Clash(syntax, init, before.value, last.value.0);
        forall a, v
          ensures Names(syntax, segments, a, v) <==> Names(syntax, init, a, v) || last.value == (a, v)
        {
          NamesAppend(syntax, segments, n, a, v);
        }
      }
      if AllValid(syntax, segments) {
        Extend(syntax, segments, n);
      }
    }
  }

  lemma Extend(syntax: NumberSyntax, segments: seq<string>, n: nat)
    requires |segments| == n + 1 && AllValid(syntax, segments)
    ensures AllDifferent(syntax, segments) <==> (
      && AllDifferent(syntax, segments[..n])
      && !exists i :: 0 <= i < n && Meaning(syntax, segments[..n][i]).value.0 == Meaning(syntax, segments[n]).value.0)
  {
    var init := segments[..n];
    if AllDifferent(syntax, segments) {
      assert forall i :: 0 <= i < n ==> init[i] == segments[i];
    }
  }

  // ----- Order does not matter -----

  lemma AddCommutes(sofar: Option<map<Attribute, Value>>, x: Option<(Attribute, Value)>, y: Option<(Attribute, Value)>)
    ensures Add(Add(sofar, x), y) == Add(Add(sofar, y), x)
  {
    if sofar.Some? && x.Some? && y.Some? && x.value.0 != y.value.0 {
      var m := sofar.value;
      var (a, v) := x.value;
      var (b, w) := y.value;
      assert m[a := v][b := w] == m[b := w][a := v];
    }
  }

  lemma WithoutOneBeforeLast(segments: seq<string>, i: nat)
    requires i + 1 < |segments|
    ensures var n := |segments| - 1; var rest := segments[..i] + segments[i + 1..];
      && |rest| == n && rest[n - 1] == segments[n]
      && segments[..n][..i] + segments[..n][i + 1..] == rest[..n - 1]
  {
  }

  /** A segment taken out of the middle can as well be parsed last. */
  lemma {:induction false} MoveToEnd(syntax: NumberSyntax, segments: seq<string>, i: nat)
    requires i < |segments|
    ensures Parsed(syntax, segments)
         == Add(Parsed(syntax, segments[..i] + segments[i + 1..]), Meaning(syntax, segments[i]))
  {
    var n := |segments| - 1;
    var rest := segments[..i] + segments[i + 1..];
    if i == n {
      assert rest == segments[..n];
    } else {
      WithoutOneBeforeLast(segments, i);
      MoveToEnd(syntax, segments[..n], i);
      assert Parsed(syntax, rest) == Add(Parsed(syntax, rest[..n - 1]), Meaning(syntax, segments[n]));
      AddCommutes(Parsed(syntax, rest[..n - 1]), Meaning(syntax, segments[i]), Meaning(syntax, segments[n]));
    }
  }

  lemma TakeOut(s: seq<string>, i: nat)
    requires i < |s|
    ensures multiset(s[..i] + s[i + 1..]) == multiset(s) - multiset{s[i]}
  {
    assert s == s[..i] + [s[i]] + s[i + 1..];
  }

  /** Any permutation of the segments gives the same answer and the same record. */
  lemma {:induction false} OrderDoesNotMatter(syntax: NumberSyntax, a: seq<string>, b: seq<string>)
    requires multiset(a) == multiset(b)
    ensures Parsed(syntax, a) == Parsed(syntax, b)
    decreases |a|
  {
    assert |a| == |multiset(a)| && |b| == |multiset(b)|;
    if a == [] {
    } else {
      var n := |a| - 1;
      assert a[n] in multiset(b);
      var i :| 0 <= i < |b| && b[i] == a[n];
      TakeOut(a, n);
      TakeOut(b, i);
      assert a[..n] + a[n + 1..] == a[..n];
      OrderDoesNotMatter(syntax, a[..n], b[..i] + b[i + 1..]);
      MoveToEnd(syntax, b, i);
    }
  }

  /** Records with the same attributes set are the same record, field by field. */
  lemma SameAttributesSameRecord(x: RequestAttributes, y: RequestAttributes)
    requires x.Clean() && y.Clean() && forall a :: x.At(a) == y.At(a)
    ensures x.minPeriod == y.minPeriod && x.maxPeriod == y.maxPeriod
    ensures x.minEvalPeriod == y.minEvalPeriod && x.maxEvalPeriod == y.maxEvalPeriod
    ensures x.greaterThan == y.greaterThan && x.lessThan == y.lessThan
    ensures x.step == y.step && x.con == y.con
  {
    assert x.At(PMin) == y.At(PMin) && x.At(PMax) == y.At(PMax);
    assert x.At(EPMin) == y.At(EPMin) && x.At(EPMax) == y.At(EPMax);
    assert x.At(GreaterThan) == y.At(GreaterThan) && x.At(LessThan) == y.At(LessThan);
    assert x.At(Step) == y.At(Step) && x.At(Con) == y.At(Con);
  }

  /** Which field holds which attribute. */
  lemma FieldsHold(x: RequestAttributes)
    ensures x.minPeriod.has ==> x.At(PMin) == Some(Period(x.minPeriod.value))
    ensures x.maxPeriod.has ==> x.At(PMax) == Some(Period(x.maxPeriod.value))
    ensures x.minEvalPeriod.has ==> x.At(EPMin) == Some(Period(x.minEvalPeriod.value))
    ensures x.maxEvalPeriod.has ==> x.At(EPMax) == Some(Period(x.maxEvalPeriod.value))
    ensures x.greaterThan.has ==> x.At(GreaterThan) == Some(Threshold(x.greaterThan.value))
    ensures x.lessThan.has ==> x.At(LessThan) == Some(Threshold(x.lessThan.value))
    ensures x.step.has ==> x.At(Step) == Some(Threshold(x.step.value))
    ensures x.con.has ==> x.At(Con) == Some(Confirmable(x.con.value))
  {
  }

  // ----- The path -----

  const PATH_LENGTH: nat := 4

  /** An ID segment: a number that is a valid ID. */
  function SegmentId(syntax: NumberSyntax, segment: string): (id: Option<Id>)
    ensures id.Some? ==> id.value != ID_INVALID
  {
    if segment == "" then None else
      match syntax.integer(segment)
      case None => None
      case Some(n) => if 0 <= n < ID_INVALID then Some(n) else None
  }

  /**
   The path of a request: one empty segment, or at most four IDs. An accepted path stands for the
   IDs given and is in normal form.
   */
  method ParsePath(syntax: NumberSyntax, segments: seq<string>) returns (result: int, path: UriPath.Path)
    ensures result == OK <==> (
      || segments == [""]
      || (|segments| <= 4 && forall i :: 0 <= i < |segments| ==> SegmentId(syntax, segments[i]).Some?))
    ensures |path| == 4
    ensures result == OK ==> UriPath.IsNormal(path)
    ensures result == OK ==> |UriPath.Meaning(path)| == if segments == [""] then 0 else |segments|
    ensures result == OK ==>
      forall i :: 0 <= i < |UriPath.Meaning(path)| ==> SegmentId(syntax, segments[i]) == Some(path[i])
  {
    path := [ID_INVALID, ID_INVALID, ID_INVALID, ID_INVALID];
    var expectNoMore := false;
    var index := 0;
    while index < |segments|
      invariant index <= |segments| && |path| == PATH_LENGTH
      invariant expectNoMore ==> index == 1 && segments[0] == "" && path[0] == ID_INVALID
      invariant !expectNoMore ==> index <= PATH_LENGTH
      invariant !expectNoMore ==> forall i :: 0 <= i < index ==>
        SegmentId(syntax, segments[i]) == Some(path[i])
      invariant forall i :: (if expectNoMore then 0 else index) <= i < |path| ==> path[i] == ID_INVALID
    {
      var segment := segments[index];
      if index == 0 && segment == "" {
        expectNoMore := true;
      } else if expectNoMore || segment == "" {
        return ERR, path;
      } else if index >= |path| {
        return ERR, path;
      } else {
        var num := syntax.integer(segment);
        if num.None? || num.value < 0 || num.value >= ID_INVALID {
          return ERR, path;
        }
        path := path[index := num.value];
      }
      index := index + 1;
    }
    UriPath.MeaningIsPrefix(path, if expectNoMore then 0 else index);
    return OK, path;
  }
}
