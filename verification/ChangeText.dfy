/**
  The text of a logged change, and the parsing that undoes it: lib/database.py prints every
  column's old and new value with their types and splits that text again to roll back.
 */
module ChangeText {
  import opened PyText

  /** A column's value.  `Other` stands for the types a rollback cannot convert, such as dates. */
  datatype Value = Int(i: int) | Str(s: string) | Bool(b: bool) | NoneValue | Other(typeName: string, text: string)

  datatype Change = Change(column: string, was: Value, now: Value)

  const ARROW := " ----> "
  const BREAK := "\r\n\r\n"

  // --------------------------------------------------------------- searching

  function Search(s: string, sep: string, from: nat): (r: Option<nat>)
    ensures r.Some? ==> from <= r.value && OccursAt(s, sep, r.value)
    ensures forall i :: from <= i < (if r.Some? then r.value else |s| + 1) ==> !OccursAt(s, sep, i)
    decreases |s| + 1 - from
  {
    if from > |s| then None
    else if OccursAt(s, sep, from) then Some(from)
    else Search(s, sep, from + 1)
  }

  /** `a, b = s.split(sep, 1)`, which raises when `sep` does not occur. */
  function SplitOnce(s: string, sep: string): (r: Option<(string, string)>)
    ensures r.Some? ==> s == r.value.0 + sep + r.value.1
    ensures r.Some? ==> Clear(r.value.0, sep)
  {
    var i :- Search(s, sep, 0);
    var (a, b) := (s[..i], s[i + |sep|..]);
    assert s == a + sep + b;
    assert forall j :: 0 <= j < i ==> (OccursAt(a + sep, sep, j) ==> OccursAt(s, sep, j)) by {
      assert a + sep == s[..i + |sep|];
    }
    Some((a, b))
  }

  /** `s.split(sep)` */
  function SplitAll(s: string, sep: string): (r: seq<string>)
    requires sep != ""
    ensures r != []
    decreases |s|
  {
    var i := Search(s, sep, 0);
    if i.None? then [s] else [s[..i.value]] + SplitAll(s[i.value + |sep|..], sep)
  }

  function Join(parts: seq<string>, sep: string): string {
    if parts == [] then "" else if |parts| == 1 then parts[0] else parts[0] + sep + Join(parts[1..], sep)
  }

  /** Followed by the separator, the text shows it no earlier. */
  predicate Clear(a: string, sep: string) {
    forall i :: 0 <= i < |a| ==> !OccursAt(a + sep, sep, i)
  }

  predicate Contains(s: string, sep: string) {
    exists i :: 0 <= i <= |s| && OccursAt(s, sep, i)
  }

  lemma SplitOnceAt(a: string, sep: string, b: string)
    requires Clear(a, sep) && sep != ""
    ensures SplitOnce(a + sep + b, sep) == Some((a, b))
  {
    var s := a + sep + b;
    assert OccursAt(s, sep, |a|);
    forall j | 0 <= j < |a|
      ensures !OccursAt(s, sep, j)
    {
      assert !OccursAt(a + sep, sep, j);
      if j + |sep| <= |s| {
        assert (a + sep)[j..j + |sep|] == s[j..j + |sep|];
      }
    }
  }

  /** Without the separator's one character `sep[k]`, a text is clear of it. */
  lemma ClearWithout(a: string, sep: string, k: nat)
    requires k < |sep| && sep[k] !in a
    requires forall j :: 0 <= j < |sep| && j != k ==> sep[j] != sep[k]
    ensures Clear(a, sep)
  {
    var s := a + sep;
    forall i | 0 <= i < |a|
      ensures !OccursAt(s, sep, i)
    {
      if i + |sep| <= |s| {
        assert s[i..i + |sep|][k] == s[i + k] != sep[k];
      }
    }
  }

  lemma ClearSuffix(x: string, y: string, sep: string)
    requires Clear(x + y, sep)
    ensures Clear(y, sep)
  {
    forall i | 0 <= i < |y|
      ensures !OccursAt(y + sep, sep, i)
    {
      if OccursAt(y + sep, sep, i) {
        assert ((x + y) + sep)[|x| + i..|x| + i + |sep|] == (y + sep)[i..i + |sep|];
        assert OccursAt((x + y) + sep, sep, |x| + i);
      }
    }
  }

  lemma {:induction false} SplitAllJoin(parts: seq<string>, sep: string)
    requires parts != [] && sep != ""
    requires forall i :: 0 <= i < |parts| ==> Clear(parts[i], sep)
    requires !Contains(parts[|parts| - 1], sep)
    ensures SplitAll(Join(parts, sep), sep) == parts
    decreases |parts|
  {
    hide Clear, Contains, Search, SplitAll, OccursAt;
    if |parts| == 1 {
      SplitAllNone(parts[0], sep);
      assert parts == [parts[0]];
    } else {
      SplitAllJoin(parts[1..], sep);
      SplitAllFirst(parts[0], sep, Join(parts[1..], sep));
      assert parts == [parts[0]] + parts[1..];
    }
  }

  lemma SplitAllNone(s: string, sep: string)
    requires !Contains(s, sep) && sep != ""
    ensures SplitAll(s, sep) == [s]
  {
    assert Search(s, sep, 0).None?;
  }

  lemma SplitAllFirst(a: string, sep: string, b: string)
    requires Clear(a, sep) && sep != ""
    ensures SplitAll(a + sep + b, sep) == [a] + SplitAll(b, sep)
  {
    hide Clear, Search, OccursAt;
    SearchAt(a, sep, b);
    assert (a + sep + b)[|a| + |sep|..] == b;
  }

  lemma SearchAt(a: string, sep: string, b: string)
    requires Clear(a, sep) && sep != ""
    ensures Search(a + sep + b, sep, 0) == Some(|a|)
    ensures (a + sep + b)[..|a|] == a
  {
    SplitOnceAt(a, sep, b);
    var s := a + sep + b;
    assert OccursAt(s, sep, |a|);
    var i := Search(s, sep, 0).value;
    assert s[..i] == a;
  }

  lemma {:induction false} PiecesHaveNone(s: string, sep: string)
    requires sep != ""
    ensures forall p :: p in SplitAll(s, sep) ==> !Contains(p, sep)
    decreases |s|
  {
    var i := Search(s, sep, 0);
    if i.Some? {
      PiecesHaveNone(s[i.value + |sep|..], sep);
      var p := s[..i.value];
      forall j | 0 <= j <= |p|
        ensures !OccursAt(p, sep, j)
      {
        if OccursAt(p, sep, j) {
          assert s[j..j + |sep|] == p[j..j + |sep|];
          assert OccursAt(s, sep, j);
        }
      }
    }
  }

  lemma PartHasNone(x: string, y: string, z: string, sep: string)
    requires !Contains(x + y + z, sep)
    ensures !Contains(y, sep)
  {
    var s := x + y + z;
    forall j | 0 <= j <= |y|
      ensures !OccursAt(y, sep, j)
    {
      if OccursAt(y, sep, j) {
        assert s[|x| + j..|x| + j + |sep|] == y[j..j + |sep|];
        assert OccursAt(s, sep, |x| + j);
      }
    }
  }

  // --------------------------------------------------------------- printing

  /** `type(value).__name__` */
  function TypeName(v: Value): string {
    match v
    case Int(_) => "int"
    case Str(_) => "str"
    case Bool(_) => "bool"
    case NoneValue => "NoneType"
    case Other(name, _) => name
  }

  /** `str(value)` */
  function Text(v: Value): string {
    match v
    case Int(i) => IntText(i)
    case Str(s) => s
    case Bool(b) => if b then "True" else "False"
    case NoneValue => "None"
    case Other(_, text) => text
  }

  function Side(v: Value): string {
    "[" + TypeName(v) + "] " + Text(v)
  }

  function Line(c: Change): string {
    c.column + ": " + (Side(c.was) + ARROW + Side(c.now))
  }

  function Lines(cs: seq<Change>): (r: seq<string>)
    ensures |r| == |cs| && forall i :: 0 <= i < |cs| ==> r[i] == Line(cs[i])
  {
    seq(|cs|, i requires 0 <= i < |cs| => Line(cs[i]))
  }

  function ChangesText(cs: seq<Change>): string {
    Join(Lines(cs), BREAK)
  }

  // ---------------------------------------------------------------- parsing

  /** `str_to_type` */
  function StrToType(typeName: string, text: string): Option<Value> {
    if typeName == "int" then
      var i :- ParseInt(Decimal, text);
      Some(Int(i))
    else if typeName == "str" then Some(Str(text))
    else if typeName == "bool" then Some(Bool(text == "True"))
    else if typeName == "NoneType" then Some(NoneValue)
    else None
  }

  /** The column and old value of one line.  Rolling back a deletion drops the bracket in
      front of the old value's text; rolling back an update also drops its last character. */
  function ParseLine(line: string, update: bool): Option<(string, Value)> {
    var (column, sides) :- SplitOnce(line, ": ");
    var (was, _) :- SplitOnce(sides, ARROW);
    var (typeName, text) :- SplitOnce(if update then Slice(was, 1, -1) else From(was, 1), "] ");
    var value :- StrToType(typeName, text);
    Some((column, value))
  }

  // ------------------------------------------------------- printed and parsed

  predicate Identifier(s: string) {
    s != "" && forall i :: 0 <= i < |s| ==> 'a' <= s[i] <= 'z' || 'A' <= s[i] <= 'Z' || '0' <= s[i] <= '9' || s[i] == '_'
  }

  /** Nothing in the text can be taken for one of the separators around it. */
  predicate CleanText(s: string) {
    Clear(" " + s, ARROW) && !Contains(s, BREAK)
  }

  predicate TypeOk(v: Value) {
    v.Other? ==> Identifier(v.typeName) && v.typeName !in {"int", "str", "bool", "NoneType", "float"}
  }

  /** The values a logged deletion can be undone with. */
  predicate Restorable(v: Value) {
    match v
    case Str(s) => CleanText(s)
    case Other(_, _) => false
    case _ => true
  }

  lemma DigitsAreClean(n: nat)
    ensures forall i :: 0 <= i < |Digits(Decimal, n)| ==> Digits(Decimal, n)[i] != '>' && Digits(Decimal, n)[i] != '\r'
  {
    var d := Digits(Decimal, n);
    forall i | 0 <= i < |d|
      ensures d[i] != '>' && d[i] != '\r'
    {
      assert DigitValue(Decimal, d[i]) >= 0;
    }
  }

  lemma PlainIsClean(s: string)
    requires '>' !in s && '\r' !in s
    ensures CleanText(s)
  {
    ClearWithout(" " + s, ARROW, 5);
    forall i | 0 <= i <= |s|
      ensures !OccursAt(s, BREAK, i)
    {
      if i + 4 <= |s| {
        assert s[i..i + 4][0] == s[i] != BREAK[0];
      }
    }
  }

  /** Numbers, truth values and None print without separators. */
  lemma RestorableIsClean(v: Value)
    requires Restorable(v)
    ensures CleanText(Text(v)) && TypeOk(v)
  {
    match v {
      case Int(i) =>
        DigitsAreClean(if i < 0 then -i else i);
        PlainIsClean(Text(v));
      case Bool(_) => PlainIsClean(Text(v));
      case NoneValue => PlainIsClean(Text(v));
      case _ =>
    }
  }

  lemma TypeNameOk(v: Value)
    requires TypeOk(v)
    ensures Identifier(TypeName(v))
    ensures ']' !in TypeName(v) && '>' !in TypeName(v) && ' ' !in TypeName(v) && '-' !in TypeName(v) && '\r' !in TypeName(v)
  {
    var t := TypeName(v);
    assert Identifier(t);
    forall i | 0 <= i < |t|
      ensures t[i] != ']' && t[i] != '>' && t[i] != ' ' && t[i] != '-' && t[i] != '\r'
    {
    }
  }

  /** The old side of a line is found whole: its type and its text. */
  lemma SidesSplit(column: string, v: Value, rest: string)
    requires Identifier(column) && TypeOk(v) && Clear(" " + Text(v), ARROW)
    ensures SplitOnce(column + ": " + (Side(v) + ARROW + rest), ": ") == Some((column, Side(v) + ARROW + rest))
    ensures SplitOnce(Side(v) + ARROW + rest, ARROW) == Some((Side(v), rest))
  {
    hide Search, Text, TypeName;
    ClearWithout(column, ": ", 0);
    SplitOnceAt(column, ": ", Side(v) + ARROW + rest);
    TypeNameOk(v);
    ClearBehind("[" + TypeName(v) + "]", " " + Text(v));
    assert Side(v) == ("[" + TypeName(v) + "]") + (" " + Text(v));
    SplitOnceAt(Side(v), ARROW, rest);
  }

  /** Text without '>' and without a space or dash at its end does not start an arrow. */
  lemma ClearBehind(front: string, a: string)
    requires Clear(a, ARROW) && '>' !in front && ' ' !in front && '-' !in front
    ensures Clear(front + a, ARROW)
  {
    var s := (front + a) + ARROW;
    forall i | 0 <= i < |front + a|
      ensures !OccursAt(s, ARROW, i)
    {
      if i < |front| {
        assert s[i] == front[i];
        if i + 7 <= |s| {
          assert s[i..i + 7][0] == s[i] != ARROW[0];
        }
      } else {
        var j := i - |front|;
        assert !OccursAt(a + ARROW, ARROW, j);
        if i + 7 <= |s| {
          assert s[i..i + 7] == (a + ARROW)[j..j + 7];
        }
      }
    }
  }

  /** `str_to_type` inverts the printing of every value it can convert. */
  lemma TypeRoundTrip(v: Value)
    requires TypeOk(v)
    ensures StrToType(TypeName(v), Text(v)) == if v.Other? then None else Some(v)
  {
    match v {
      case Int(i) => IntTextRoundTrip(i);
      case _ =>
    }
  }

  /** A printed line is parsed back, unless its type cannot be converted. */
  lemma ParsePrinted(c: Change)
    requires Identifier(c.column) && TypeOk(c.was) && Clear(" " + Text(c.was), ARROW)
    ensures ParseLine(Line(c), false) == if c.was.Other? then None else Some((c.column, c.was))
  {
    hide Text, TypeName, StrToType, SplitOnce, Identifier;
    var v := c.was;
    SidesSplit(c.column, v, Side(c.now));
    TypeNameOk(v);
    ClearWithout(TypeName(v), "] ", 0);
    SplitOnceAt(TypeName(v), "] ", Text(v));
    assert From(Side(v), 1) == TypeName(v) + "] " + Text(v);
    TypeRoundTrip(v);
  }

  lemma DigitsFront(n: nat)
    ensures var d := Digits(Decimal, n); d[..|d| - 1] == if n < 10 then "" else Digits(Decimal, n / 10)
  {
  }

  /** The front of a decimal text is never the same number. */
  lemma ShorterIntDiffers(i: int)
    ensures var t := IntText(i); ParseInt(Decimal, t[..|t| - 1]) != Some(i)
  {
    hide Digits, ParseInt;
    var n: int := if i < 0 then -i else i;
    var q: int := n / 10;
    var d, t := Digits(Decimal, n), IntText(i);
    DigitsFront(n);
    if n < 10 {
      assert t[..|t| - 1] == if i < 0 then "-" else "";
      NoNumber();
    } else {
      assert t[..|t| - 1] == if i < 0 then "-" + Digits(Decimal, q) else Digits(Decimal, q);
      assert IntText(if i < 0 then -q else q) == t[..|t| - 1];
      IntTextRoundTrip(if i < 0 then -q else q);
    }
  }

  lemma NoNumber()
    ensures ParseInt(Decimal, "").None? && ParseInt(Decimal, "-").None?
  {
    assert "-"[1..] == "";
  }

  /** An update's line is parsed without the last character of the old value's text, which
      gives back the old value exactly when that is None or False. */
  lemma ParsePrintedUpdate(c: Change)
    requires Identifier(c.column) && TypeOk(c.was)
    ensures var r := ParseLine(Line(c), true);
            && (r.Some? ==> r.value.0 == c.column)
            && (r == Some((c.column, c.was)) <==> c.was == NoneValue || c.was == Bool(false))
            && (c.was.Str? && Clear(" " + c.was.s, ARROW) ==>
                  r == if c.was.s == "" then None else Some((c.column, Str(c.was.s[..|c.was.s| - 1]))))
  {
    hide TypeName, StrToType, SplitOnce, Identifier, IntText, Text, ParseInt, Clear, Restorable;
    var v, t, text := c.was, TypeName(c.was), Text(c.was);
    if Restorable(v) {
      RestorableIsClean(v);
    }
    TextOfStr(v);
    if Clear(" " + text, ARROW) {
      SidesSplit(c.column, v, Side(c.now));
      TypeNameOk(v);
      var inner := Slice(Side(v), 1, -1);
      if text == "" {
        assert inner == t + "]";
        NoBracketSpace(t);
        EmptyTextIsStr(v);
      } else {
        var less := text[..|text| - 1];
        assert inner == t + "] " + less;
        ClearWithout(t, "] ", 0);
        SplitOnceAt(t, "] ", less);
        ShorterTextDiffers(v, less);
      }
    } else {
      ArrowInOldText(c);
    }
  }

  lemma TextOfStr(v: Value)
    ensures v.Str? ==> Text(v) == v.s
    ensures !v.Str? && !v.Other? ==> Restorable(v)
  {
  }

  /** An old text that shows the arrow too early is cut there, and comes back shorter still. */
  lemma ArrowInOldText(c: Change)
    requires Identifier(c.column) && TypeOk(c.was) && !Clear(" " + Text(c.was), ARROW)
    ensures var r := ParseLine(Line(c), true);
            && (r.Some? ==> r.value.0 == c.column)
            && r != Some((c.column, c.was)) && c.was != NoneValue && c.was != Bool(false)
  {
    hide Text, TypeName, StrToType, Identifier, Search, Restorable;
    var v := c.was;
    TextOfStr(v);
    if Restorable(v) {
      RestorableIsClean(v);
    }
    var sides := Side(v) + ARROW + Side(c.now);
    ClearColumn(c.column);
    SplitOnceAt(c.column, ": ", sides);
    EarlyArrow("[" + TypeName(v) + "]", " " + Text(v), Side(c.now));
    assert Side(v) == ("[" + TypeName(v) + "]") + (" " + Text(v));
    var was := SplitOnce(sides, ARROW).value.0;
    assert |was| < |Side(v)|;
    var r := SplitOnce(Slice(was, 1, -1), "] ");
    if v.Str? && r.Some? {
      TypeNameOfStr(v);
      StrNeedsType(r.value.0, r.value.1);
      assert |Slice(was, 1, -1)| <= if |was| < 2 then 0 else |was| - 2;
    } else if r.Some? {
      StrNeedsType(r.value.0, r.value.1);
    }
  }

  lemma ClearColumn(column: string)
    requires Identifier(column)
    ensures Clear(column, ": ")
  {
    ClearWithout(column, ": ", 0);
  }

  lemma TypeNameOfStr(v: Value)
    requires v.Str?
    ensures TypeName(v) == "str"
  {
  }

  lemma StrNeedsType(typeName: string, text: string)
    ensures var r := StrToType(typeName, text);
            r.Some? ==> !r.value.Other? && (r.value.Str? ==> typeName == "str" && r.value.s == text)
  {
    hide ParseInt;
  }

  lemma EarlyArrow(front: string, a: string, rest: string)
    requires !Clear(a, ARROW)
    ensures var r := SplitOnce((front + a) + ARROW + rest, ARROW); r.Some? && |r.value.0| < |front + a|
  {
    var i :| 0 <= i < |a| && OccursAt(a + ARROW, ARROW, i);
    var s := (front + a) + ARROW + rest;
    assert s[|front| + i..|front| + i + 7] == (a + ARROW)[i..i + 7];
    assert OccursAt(s, ARROW, |front| + i);
  }

  lemma NoBracketSpace(t: string)
    requires ']' !in t && ' ' !in t
    ensures SplitOnce(t + "]", "] ").None?
  {
    var s := t + "]";
    forall i | 0 <= i <= |s|
      ensures !OccursAt(s, "] ", i)
    {
      if i + 2 <= |s| {
        assert s[i..i + 2][0] == s[i] != ']';
      }
    }
  }

  lemma EmptyTextIsStr(v: Value)
    requires Text(v) == ""
    ensures v != NoneValue && v != Bool(false)
    ensures v.Str? ==> v.s == ""
  {
  }

  lemma ShorterTextDiffers(v: Value, less: string)
    requires TypeOk(v) && Text(v) != ""
    requires less == Text(v)[..|Text(v)| - 1]
    ensures StrToType(TypeName(v), less) == Some(v) <==> v == NoneValue || v == Bool(false)
    ensures v.Str? ==> v.s != "" && less == v.s[..|v.s| - 1] && StrToType(TypeName(v), less) == Some(Str(less))
  {
    hide ParseInt, IntText;
    match v {
      case Int(i) => ShorterIntDiffers(i);
      case Str(s) => assert |less| < |s|;
      case Bool(b) => assert b ==> |less| == 3;
                      assert !b ==> less[0] == 'F';
                      assert "True"[0] == 'T';
      case _ =>
    }
  }

  // ------------------------------------------------------------ whole texts

  /** Pieces without line-break characters around clean texts keep a line free of the break. */
  lemma ClearMixed(p: string, v: string, q: string, w: string)
    requires '\r' !in p && '\r' !in q && q != "" && q[0] != '\n'
    requires !Contains(v, BREAK) && Clear(w, BREAK)
    ensures Clear(p + v + q + w, BREAK) && !Contains(p + v + q + w, BREAK)
  {
    var a := p + v + q + w;
    var s := a + BREAK;
    assert BREAK[0] == BREAK[2] == '\r' && BREAK[1] == BREAK[3] == '\n';
    assert q[0] in q;
    forall i | 0 <= i < |a|
      ensures !OccursAt(s, BREAK, i)
    {
      var u := s[i..i + 4];
      if i < |p| {
        assert u[0] == p[i] && p[i] in p;
      } else if i < |p| + |v| {
        var j := i - |p|;
        assert !OccursAt(v, BREAK, j);
        if j + 4 <= |v| {
          assert u == v[j..j + 4];
        } else {
          assert u[|v| - j] == q[0];
        }
      } else if i < |p| + |v| + |q| {
        assert u[0] == q[i - |p| - |v|] && u[0] in q;
      } else {
        var j := i - |p| - |v| - |q|;
        assert !OccursAt(w + BREAK, BREAK, j);
        assert u == (w + BREAK)[j..j + 4];
      }
    }
    forall i | 0 <= i <= |a|
      ensures !OccursAt(a, BREAK, i)
    {
      if i + 4 <= |a| {
        assert s[i..i + 4] == a[i..i + 4];
        assert !OccursAt(s, BREAK, i);
      }
    }
  }

  lemma LineClear(c: Change)
    requires Identifier(c.column) && TypeOk(c.was) && TypeOk(c.now)
    requires !Contains(Text(c.was), BREAK) && Clear(Text(c.now), BREAK)
    ensures Clear(Line(c), BREAK) && !Contains(Line(c), BREAK)
  {
    hide Text, TypeName, Clear, Contains;
    TypeNameOk(c.was);
    TypeNameOk(c.now);
    var p := c.column + ": [" + TypeName(c.was) + "] ";
    var q := ARROW + "[" + TypeName(c.now) + "] ";
    assert '\r' !in p && '\r' !in q;
    ClearMixed(p, Text(c.was), q, Text(c.now));
    assert Line(c) == p + Text(c.was) + q + Text(c.now);
  }

  type Record = map<string, Value>

  /** The columns of a record, in table order, as the changes of its deletion or insertion. */
  function DeleteChanges(columns: seq<string>, record: Record): (cs: seq<Change>)
    requires forall i :: 0 <= i < |columns| ==> columns[i] in record
    ensures |cs| == |columns|
    ensures forall i :: 0 <= i < |cs| ==> cs[i] == Change(columns[i], record[columns[i]], NoneValue)
  {
    seq(|columns|, i requires 0 <= i < |columns| => Change(columns[i], record[columns[i]], NoneValue))
  }

  function InsertChanges(columns: seq<string>, record: Record): (cs: seq<Change>)
    requires forall i :: 0 <= i < |columns| ==> columns[i] in record
    ensures |cs| == |columns|
    ensures forall i :: 0 <= i < |cs| ==> cs[i] == Change(columns[i], NoneValue, record[columns[i]])
  {
    seq(|columns|, i requires 0 <= i < |columns| => Change(columns[i], NoneValue, record[columns[i]]))
  }

  /** The old values of the first `n` lines, a later line for a column overriding an earlier
      one; None when a line cannot be parsed. */
  function Collect(lines: seq<string>, n: nat): Option<Record>
    requires n <= |lines|
  {
    if n == 0 then Some(map[])
    else
      var m :- Collect(lines, n - 1);
      var (column, value) :- ParseLine(lines[n - 1], false);
      Some(m[column := value])
  }

  /** The loop of the DELETE branch of `rollback_last_change`. */
  method OldValues(text: string) returns (r: Option<Record>)
    ensures r == OldValuesOf(text)
  {
    var lines := SplitAll(text, BREAK);
    var values: Record := map[];
    for i := 0 to |lines|
      invariant Collect(lines, i) == Some(values)
    {
      hide ParseLine;
      var parsed := ParseLine(lines[i], false);
      if parsed.None? {
        CollectStops(lines, i);
        return None;
      }
      values := values[parsed.value.0 := parsed.value.1];
    }
    r := Some(values);
  }

  function OldValuesOf(text: string): Option<Record> {
    var lines := SplitAll(text, BREAK);
    Collect(lines, |lines|)
  }

  lemma CollectStops(lines: seq<string>, i: nat)
    requires i < |lines| && ParseLine(lines[i], false).None?
    ensures Collect(lines, |lines|).None?
  {
    hide ParseLine;
    CollectStopsAt(lines, i, |lines|);
  }

  lemma {:induction false} CollectStopsAt(lines: seq<string>, i: nat, n: nat)
    requires i < n <= |lines| && ParseLine(lines[i], false).None?
    ensures Collect(lines, n).None?
  {
    hide ParseLine;
    if n > i + 1 {
      CollectStopsAt(lines, i, n - 1);
    }
  }

  /** The record has exactly these columns, named and typed as a database would. */
  ghost predicate RecordOk(columns: seq<string>, record: Record) {
    && columns != [] && (forall i :: 0 <= i < |columns| ==> Identifier(columns[i]))
    && (forall c :: c in columns <==> c in record)
    && (forall c :: c in record ==> TypeOk(record[c]))
  }

  lemma {:induction false} CollectPrinted(columns: seq<string>, record: Record, n: nat)
    requires RecordOk(columns, record) && n <= |columns|
    requires forall c :: c in record ==> Restorable(record[c])
    ensures var m := Collect(Lines(DeleteChanges(columns, record)), n);
            && m.Some? && (forall c :: c in m.value <==> c in columns[..n])
            && forall c :: c in m.value ==> c in record && m.value[c] == record[c]
  {
    hide ParseLine, Restorable, Identifier, TypeOk, Line, Clear, Contains, Collect;
    if n == 0 {
      CollectNone(Lines(DeleteChanges(columns, record)));
    } else {
      CollectPrinted(columns, record, n - 1);
      var c := columns[n - 1];
      assert c in columns;
      PrintedRestorable(c, record[c]);
      PrefixNext(columns, n);
      CollectNext(Lines(DeleteChanges(columns, record)), n, c, record[c]);
    }
  }

  lemma CollectNone(lines: seq<string>)
    ensures Collect(lines, 0) == Some(map[])
  {
  }

  lemma PrefixNext(columns: seq<string>, n: nat)
    requires 0 < n <= |columns|
    ensures forall k :: k in columns[..n] <==> k in columns[..n - 1] || k == columns[n - 1]
  {
    assert columns[..n] == columns[..n - 1] + [columns[n - 1]];
  }

  lemma CollectNext(lines: seq<string>, n: nat, column: string, value: Value)
    requires 0 < n <= |lines| && ParseLine(lines[n - 1], false) == Some((column, value))
    requires Collect(lines, n - 1).Some?
    ensures Collect(lines, n) == Some(Collect(lines, n - 1).value[column := value])
  {
    hide ParseLine;
  }

  lemma PrintedRestorable(column: string, v: Value)
    requires Identifier(column) && Restorable(v)
    ensures var line := Line(Change(column, v, NoneValue));
            && ParseLine(line, false) == Some((column, v))
            && Clear(line, BREAK) && !Contains(line, BREAK)
  {
    hide ParseLine, Line, Identifier, Clear, Contains, TypeOk;
    var c := Change(column, v, NoneValue);
    RestorableIsClean(v);
    ParsePrinted(c);
    NoneIsClear();
    LineClear(c);
  }

  lemma NoneIsClear()
    ensures TypeOk(NoneValue) && Clear(Text(NoneValue), BREAK)
  {
    ClearWithoutBreak("None");
  }

  lemma ClearWithoutBreak(s: string)
    requires '\r' !in s
    ensures Clear(s, BREAK)
  {
    forall i | 0 <= i < |s|
      ensures !OccursAt(s + BREAK, BREAK, i)
    {
      assert (s + BREAK)[i..i + 4][0] == s[i] != BREAK[0];
    }
  }

  /** The old value's text, wherever the parser finds it, is clean. */
  lemma PartsAreClean(column: string, was: string, now: string, typeName: string, text: string)
    requires was != "" && was[1..] == typeName + "] " + text
    requires Clear(was, ARROW) && !Contains(column + ": " + (was + ARROW + now), BREAK)
    ensures CleanText(text)
  {
    hide Contains, Clear;
    var front := was[..1] + typeName + "]";
    Regroup(was[..1], typeName, text);
    assert was == was[..1] + was[1..];
    ClearSuffix(front, " " + text, ARROW);
    var x := column + ": " + (front + " ");
    Around(column + ": ", front + " ", text, ARROW + now);
    assert was + ARROW + now == ((front + " ") + text) + (ARROW + now);
    PartHasNone(x, text, ARROW + now, BREAK);
  }

  lemma Regroup(a: string, t: string, text: string)
    ensures a + (t + "] " + text) == (a + t + "]") + (" " + text) == ((a + t + "]") + " ") + text
  {
  }

  lemma Around(a: string, b: string, c: string, d: string)
    ensures a + ((b + c) + d) == (a + b) + c + d
  {
  }

  /** Whatever a line parses to can be printed and parsed again. */
  lemma ParsedIsRestorable(line: string)
    requires !Contains(line, BREAK)
    ensures var r := ParseLine(line, false); r.Some? ==> Restorable(r.value.1)
  {
    hide StrToType, Search, Contains, Clear, CleanText;
    var r := ParseLine(line, false);
    if r.Some? {
      var (column, sides) := SplitOnce(line, ": ").value;
      var (was, now) := SplitOnce(sides, ARROW).value;
      var (typeName, text) := SplitOnce(From(was, 1), "] ").value;
      assert |From(was, 1)| >= 2;
      PartsAreClean(column, was, now, typeName, text);
      TypeGivesText(typeName, text);
    }
  }

  lemma TypeGivesText(typeName: string, text: string)
    ensures var r := StrToType(typeName, text); r.Some? ==> !r.value.Other? && (r.value.Str? ==> r.value.s == text)
  {
  }

  lemma {:induction false} CollectedIsRestorable(lines: seq<string>, n: nat)
    requires n <= |lines| && forall p :: p in lines ==> !Contains(p, BREAK)
    ensures var m := Collect(lines, n); m.Some? ==> forall c :: c in m.value ==> Restorable(m.value[c])
  {
    hide ParseLine, Restorable, Contains;
    if n > 0 {
      CollectedIsRestorable(lines, n - 1);
      ParsedIsRestorable(lines[n - 1]);
    }
  }

  /** Whatever text is rolled back, the values it yields could have been logged. */
  lemma OldValuesAreRestorable(text: string)
    ensures var m := OldValuesOf(text); m.Some? ==> forall c :: c in m.value ==> Restorable(m.value[c])
  {
    hide Restorable, Contains, Collect, SplitAll;
    PiecesHaveNone(text, BREAK);
    CollectedIsRestorable(SplitAll(text, BREAK), |SplitAll(text, BREAK)|);
  }

  /** The text of a deletion gives back the record exactly when every value can be restored. */
  lemma DeleteTextInverts(columns: seq<string>, record: Record)
    requires RecordOk(columns, record)
    ensures OldValuesOf(ChangesText(DeleteChanges(columns, record))) == Some(record)
       <==> forall c :: c in record ==> Restorable(record[c])
  {
    hide Restorable, OldValuesOf, Identifier, TypeOk, ChangesText;
    OldValuesAreRestorable(ChangesText(DeleteChanges(columns, record)));
    if forall c :: c in record ==> Restorable(record[c]) {
      DeleteTextRestores(columns, record);
    }
  }

  lemma DeleteTextRestores(columns: seq<string>, record: Record)
    requires RecordOk(columns, record)
    requires forall c :: c in record ==> Restorable(record[c])
    ensures OldValuesOf(ChangesText(DeleteChanges(columns, record))) == Some(record)
  {
    hide Restorable, Contains, Clear, Line, Collect, Identifier, TypeOk, SplitAll;
    var lines := Lines(DeleteChanges(columns, record));
    forall i | 0 <= i < |lines|
      ensures Clear(lines[i], BREAK) && !Contains(lines[i], BREAK)
    {
      assert columns[i] in columns;
      PrintedRestorable(columns[i], record[columns[i]]);
    }
    SplitAllJoin(lines, BREAK);
    CollectPrinted(columns, record, |columns|);
    assert columns[..|columns|] == columns;
    assert Collect(lines, |lines|).value == record;
  }

  /** The text of a change, and of a change with others behind it. */
  lemma PrintedText(c: Change, rest: seq<Change>)
    ensures ChangesText([c]) == c.column + ": [" + TypeName(c.was) + "] " + Text(c.was) + " ----> [" + TypeName(c.now) + "] " + Text(c.now)
    ensures rest != [] ==> ChangesText([c] + rest) == ChangesText([c]) + "\r\n\r\n" + ChangesText(rest)
  {
    hide TypeName, Text;
    assert Lines([c]) == [Line(c)];
    LineText(c.column, TypeName(c.was), Text(c.was), TypeName(c.now), Text(c.now));
    hide Line;
    assert Lines([c] + rest) == [Line(c)] + Lines(rest);
    assert ([Line(c)] + Lines(rest))[1..] == Lines(rest);
  }

  lemma LineText(column: string, t: string, v: string, u: string, w: string)
    ensures column + ": " + (("[" + t + "] " + v) + ARROW + ("[" + u + "] " + w))
         == column + ": [" + t + "] " + v + " ----> [" + u + "] " + w
  {
    assert ": [" == ": " + "[" && " ----> [" == ARROW + "[";
  }

  /** The log says of every column of an inserted row that there was nothing, and what there is. */
  lemma InsertText(columns: seq<string>, record: Record, i: nat)
    requires i < |columns| && forall j :: 0 <= j < |columns| ==> columns[j] in record
    ensures var lines := Lines(InsertChanges(columns, record));
            && ChangesText(InsertChanges(columns, record)) == Join(lines, "\r\n\r\n") && |lines| == |columns|
            && lines[i] == columns[i] + ": [NoneType] None ----> [" + TypeName(record[columns[i]]) + "] " + Text(record[columns[i]])
  {
    hide Join, Line;
    var v := record[columns[i]];
    PrintedText(Change(columns[i], NoneValue, v), []);
    assert Lines([Change(columns[i], NoneValue, v)]) == [Line(Change(columns[i], NoneValue, v))];
    JoinOne(Line(Change(columns[i], NoneValue, v)));
    hide TypeName, Text;
    assert ": [" + "NoneType" + "] " + "None" + " ----> [" == ": [NoneType] None ----> [";
    NothingText(columns[i], TypeName(v), Text(v));
  }

  lemma JoinOne(s: string)
    ensures Join([s], BREAK) == s
  {
  }

  lemma NothingText(column: string, u: string, w: string)
    ensures TypeName(NoneValue) == "NoneType" && Text(NoneValue) == "None"
    ensures column + ": [" + "NoneType" + "] " + "None" + " ----> [" + u + "] " + w
         == column + ": [NoneType] None ----> [" + u + "] " + w
  {
    assert ": [" + "NoneType" + "] " + "None" + " ----> [" == ": [NoneType] None ----> [";
    assert column + ": [" + "NoneType" + "] " + "None" + " ----> [" == column + (": [" + "NoneType" + "] " + "None" + " ----> [");
  }

  /** And parsed like that of a deletion it gives None for every column, when no value can be taken
      for a line break of the log. */
  lemma InsertTextParses(columns: seq<string>, record: Record)
    requires RecordOk(columns, record) && forall c :: c in record ==> Clear(Text(record[c]), BREAK)
    ensures OldValuesOf(ChangesText(InsertChanges(columns, record))) == Some(map c | c in record :: NoneValue)
  {
    hide Contains, Clear, Line, Collect, Identifier, TypeOk, SplitAll, ParseLine, Text;
    var lines := Lines(InsertChanges(columns, record));
    forall i | 0 <= i < |lines|
      ensures Clear(lines[i], BREAK) && !Contains(lines[i], BREAK)
    {
      assert columns[i] in columns;
      InsertedLine(columns[i], record[columns[i]]);
    }
    SplitAllJoin(lines, BREAK);
    CollectNones(columns, record, |columns|);
    assert columns[..|columns|] == columns;
    assert Collect(lines, |lines|).value == map c | c in record :: NoneValue;
  }

  lemma InsertedLine(column: string, v: Value)
    requires Identifier(column) && TypeOk(v) && Clear(Text(v), BREAK)
    ensures var line := Line(Change(column, NoneValue, v));
            && ParseLine(line, false) == Some((column, NoneValue))
            && Clear(line, BREAK) && !Contains(line, BREAK)
  {
    hide ParseLine, Line, Identifier, Clear, Contains, TypeOk;
    RestorableIsClean(NoneValue);
    ParsePrinted(Change(column, NoneValue, v));
    NoneIsClear();
    LineClear(Change(column, NoneValue, v));
  }

  lemma {:induction false} CollectNones(columns: seq<string>, record: Record, n: nat)
    requires RecordOk(columns, record) && n <= |columns| && forall c :: c in record ==> Clear(Text(record[c]), BREAK)
    ensures var m := Collect(Lines(InsertChanges(columns, record)), n);
            && m.Some? && (forall c :: c in m.value <==> c in columns[..n])
            && forall c :: c in m.value ==> m.value[c] == NoneValue
  {
    hide ParseLine, Identifier, TypeOk, Line, Clear, Contains, Collect, Text;
    if n == 0 {
      CollectNone(Lines(InsertChanges(columns, record)));
    } else {
      CollectNones(columns, record, n - 1);
      var c := columns[n - 1];
      assert c in columns;
      InsertedLine(c, record[c]);
      PrefixNext(columns, n);
      CollectNext(Lines(InsertChanges(columns, record)), n, c, NoneValue);
    }
  }

  // ---------------------------------------------------------------- updates

  /** `setattr` on the row for every parsed line; an attribute that is no column changes nothing. */
  function RevertFirst(record: Record, lines: seq<string>, n: nat): Option<Record>
    requires n <= |lines|
  {
    if n == 0 then Some(record)
    else
      var m :- RevertFirst(record, lines, n - 1);
      var (column, value) :- ParseLine(lines[n - 1], true);
      Some(if column in m then m[column := value] else m)
  }

  function RevertOf(record: Record, text: string): Option<Record> {
    var lines := SplitAll(text, BREAK);
    RevertFirst(record, lines, |lines|)
  }

  /** The loop of the UPDATE branch of `rollback_last_change`. */
  method RevertUpdate(record: Record, text: string) returns (r: Option<Record>)
    ensures r == RevertOf(record, text)
  {
    var lines := SplitAll(text, BREAK);
    var target := record;
    for i := 0 to |lines|
      invariant RevertFirst(record, lines, i) == Some(target)
    {
      hide ParseLine;
      var parsed := ParseLine(lines[i], true);
      if parsed.None? {
        RevertStops(record, lines, i, |lines|);
        return None;
      }
      if parsed.value.0 in target {
        target := target[parsed.value.0 := parsed.value.1];
      }
    }
    r := Some(target);
  }

  lemma {:induction false} RevertStops(record: Record, lines: seq<string>, i: nat, n: nat)
    requires i < n <= |lines| && ParseLine(lines[i], true).None?
    ensures RevertFirst(record, lines, n).None?
  {
    hide ParseLine;
    if n > i + 1 {
      RevertStops(record, lines, i, n - 1);
    }
  }

  /** The row with the first `n` changes taken back. */
  function Undone(record: Record, cs: seq<Change>, n: nat): (r: Record)
    requires n <= |cs|
    ensures forall c :: c in record ==> c in r
  {
    if n == 0 then record else Undone(record, cs, n - 1)[cs[n - 1].column := cs[n - 1].was]
  }

  /** The changes of one update: distinct columns of the row, which holds the new values, and
      new texts that cannot be taken for a line break of the log. */
  ghost predicate UpdateOk(record: Record, cs: seq<Change>) {
    && cs != []
    && (forall i :: 0 <= i < |cs| ==> cs[i].column in record && record[cs[i].column] == cs[i].now && ChangeOk(cs[i]))
    && (forall i, j :: 0 <= i < j < |cs| ==> cs[i].column != cs[j].column)
  }

  ghost predicate ChangeOk(c: Change) {
    Identifier(c.column) && TypeOk(c.was) && TypeOk(c.now) && c.was != c.now && Clear(Text(c.now), BREAK)
  }

  predicate LosesNothing(v: Value) {
    v == NoneValue || v == Bool(false)
  }

  lemma {:induction false} UndoneColumns(record: Record, cs: seq<Change>, n: nat)
    requires n <= |cs| && forall i :: 0 <= i < |cs| ==> cs[i].column in record
    requires forall i, j :: 0 <= i < j < |cs| ==> cs[i].column != cs[j].column
    ensures var u := Undone(record, cs, n);
            && u.Keys == record.Keys
            && (forall i :: 0 <= i < n ==> u[cs[i].column] == cs[i].was)
            && (forall c :: c in record && (forall i :: 0 <= i < n ==> cs[i].column != c) ==> u[c] == record[c])
  {
    if n > 0 {
      UndoneColumns(record, cs, n - 1);
      assert forall i :: 0 <= i < n - 1 ==> cs[i].column != cs[n - 1].column;
    }
  }

  lemma RevertNext(record: Record, lines: seq<string>, n: nat)
    requires 0 < n <= |lines| && RevertFirst(record, lines, n).Some?
    ensures RevertFirst(record, lines, n - 1).Some? && ParseLine(lines[n - 1], true).Some?
    ensures var m, (column, value) := RevertFirst(record, lines, n - 1).value, ParseLine(lines[n - 1], true).value;
            RevertFirst(record, lines, n).value == if column in m then m[column := value] else m
  {
    hide ParseLine;
  }

  /** The row after the first `n` lines: their columns hold what the lines parse to, the other
      columns what they held. */
  ghost predicate Reverted(record: Record, cs: seq<Change>, n: nat, m: Record)
    requires n <= |cs|
  {
    && m.Keys == record.Keys
    && (forall i :: 0 <= i < n ==> cs[i].column in m && ParseLine(Line(cs[i]), true) == Some((cs[i].column, m[cs[i].column])))
    && (forall c :: c in record && (forall i :: 0 <= i < n ==> cs[i].column != c) ==> m[c] == record[c])
  }

  lemma RevertedNext(record: Record, cs: seq<Change>, n: nat, m: Record, value: Value)
    requires n < |cs| && Reverted(record, cs, n, m) && cs[n].column in record
    requires ParseLine(Line(cs[n]), true) == Some((cs[n].column, value))
    requires forall i :: 0 <= i < n ==> cs[i].column != cs[n].column
    ensures Reverted(record, cs, n + 1, m[cs[n].column := value])
  {
    hide ParseLine, Line;
    var next := m[cs[n].column := value];
    assert next.Keys == record.Keys;
    forall c | c in record && (forall i :: 0 <= i < n + 1 ==> cs[i].column != c)
      ensures next[c] == record[c]
    {
      assert cs[n].column != c;
    }
  }

  lemma RevertNothing(record: Record, cs: seq<Change>)
    ensures RevertFirst(record, Lines(cs), 0) == Some(record) && Reverted(record, cs, 0, record)
  {
  }

  lemma UpdateOkAt(record: Record, cs: seq<Change>, n: nat)
    requires UpdateOk(record, cs) && n < |cs|
    ensures cs[n].column in record && ChangeOk(cs[n]) && forall i :: 0 <= i < n ==> cs[i].column != cs[n].column
  {
    hide ChangeOk;
  }

  lemma {:induction false} RevertColumns(record: Record, cs: seq<Change>, n: nat)
    requires UpdateOk(record, cs) && n <= |cs|
    requires RevertFirst(record, Lines(cs), n).Some?
    ensures Reverted(record, cs, n, RevertFirst(record, Lines(cs), n).value)
  {
    hide ParseLine, Line, ChangeOk, LosesNothing, Clear, Contains, Reverted, RevertFirst, UpdateOk;
    if n == 0 {
      RevertNothing(record, cs);
    } else {
      RevertNext(record, Lines(cs), n);
      RevertColumns(record, cs, n - 1);
      UpdateOkAt(record, cs, n - 1);
      UpdateLine(cs[n - 1]);
      var m := RevertFirst(record, Lines(cs), n - 1).value;
      RevertedKeys(record, cs, n - 1, m);
      assert cs[n - 1].column in m.Keys;
      RevertedNext(record, cs, n - 1, m, ParseLine(Line(cs[n - 1]), true).value.1);
    }
  }

  lemma RevertedKeys(record: Record, cs: seq<Change>, n: nat, m: Record)
    requires n <= |cs| && Reverted(record, cs, n, m)
    ensures m.Keys == record.Keys
  {
    hide ParseLine, Line;
  }

  lemma UpdateLine(c: Change)
    requires ChangeOk(c)
    ensures var r := ParseLine(Line(c), true);
            && (r.Some? ==> r.value.0 == c.column)
            && (r == Some((c.column, c.was)) <==> LosesNothing(c.was))
    ensures LosesNothing(c.was) ==> !Contains(Text(c.was), BREAK)
    ensures !Contains(Text(c.was), BREAK) ==> Clear(Line(c), BREAK) && !Contains(Line(c), BREAK)
  {
    hide ParseLine, Line, Identifier, TypeOk, Clear, Contains;
    ParsePrintedUpdate(c);
    if LosesNothing(c.was) {
      RestorableIsClean(c.was);
    }
    if !Contains(Text(c.was), BREAK) {
      LineClear(c);
    }
  }

  lemma {:induction false} RevertSucceeds(record: Record, cs: seq<Change>, n: nat)
    requires UpdateOk(record, cs) && n <= |cs|
    requires forall i :: 0 <= i < |cs| ==> LosesNothing(cs[i].was)
    ensures RevertFirst(record, Lines(cs), n).Some?
  {
    hide ParseLine, Line, ChangeOk;
    if n > 0 {
      RevertSucceeds(record, cs, n - 1);
      UpdateLine(cs[n - 1]);
    }
  }

  /** A value that the log's text could have held whole. */
  predicate Unbroken(v: Value) {
    !v.Other? && (v.Str? ==> !Contains(v.s, BREAK))
  }

  lemma ParsedIsUnbroken(line: string)
    requires !Contains(line, BREAK)
    ensures var r := ParseLine(line, true); r.Some? ==> Unbroken(r.value.1)
  {
    hide StrToType, Search, Contains, OccursAt, Clear;
    var r := ParseLine(line, true);
    if r.Some? {
      var (column, sides) := SplitOnce(line, ": ").value;
      var (was, now) := SplitOnce(sides, ARROW).value;
      var inner := Slice(was, 1, -1);
      var (typeName, text) := SplitOnce(inner, "] ").value;
      assert |inner| >= 2;
      InnerOf(was);
      StrNeedsType(typeName, text);
      var x := column + ": " + (was[..1] + (typeName + "] "));
      TextWithin(column, was, now, typeName, text, x, line);
      PartHasNone(x, text, was[|was| - 1..] + (ARROW + now), BREAK);
    }
  }

  lemma InnerOf(was: string)
    requires |Slice(was, 1, -1)| >= 2
    ensures |was| >= 2 && was == was[..1] + Slice(was, 1, -1) + was[|was| - 1..]
  {
  }

  lemma TextWithin(column: string, was: string, now: string, typeName: string, text: string, x: string, line: string)
    requires |was| >= 2 && was == was[..1] + (typeName + "] " + text) + was[|was| - 1..]
    requires x == column + ": " + (was[..1] + (typeName + "] ")) && line == column + ": " + (was + ARROW + now)
    ensures line == x + text + (was[|was| - 1..] + (ARROW + now))
  {
    var a, b, d := was[..1], typeName + "] ", was[|was| - 1..];
    assert was == a + (b + text) + d;
    assert was + ARROW + now == (a + b) + text + (d + (ARROW + now));
  }

  /** A column holds its new value or one a line was parsed to. */
  lemma {:induction false} RevertedValues(record: Record, lines: seq<string>, n: nat)
    requires n <= |lines| && forall p :: p in lines ==> !Contains(p, BREAK)
    ensures var m := RevertFirst(record, lines, n);
            m.Some? ==> forall c :: c in record ==> c in m.value && (m.value[c] == record[c] || Unbroken(m.value[c]))
  {
    hide ParseLine, Contains, Unbroken;
    if n > 0 {
      RevertedValues(record, lines, n - 1);
      ParsedIsUnbroken(lines[n - 1]);
    }
  }

  /** An old text with a line break of the log in it cannot come back. */
  lemma BrokenIsLost(record: Record, cs: seq<Change>, i: nat)
    requires UpdateOk(record, cs) && i < |cs| && Contains(Text(cs[i].was), BREAK)
    ensures RevertOf(record, ChangesText(cs)) != Some(Undone(record, cs, |cs|))
  {
    hide ParseLine, Line, Contains, SplitAll, RevertFirst, Undone, Unbroken, Identifier, TypeOk, Clear;
    var lines := SplitAll(ChangesText(cs), BREAK);
    PiecesHaveNone(ChangesText(cs), BREAK);
    RevertedValues(record, lines, |lines|);
    UndoneColumns(record, cs, |cs|);
    BrokenText(cs[i].was);
  }

  lemma BrokenText(v: Value)
    requires Contains(Text(v), BREAK)
    ensures !Unbroken(v)
  {
    hide Contains, IntText;
    if !v.Str? && !v.Other? {
      RestorableIsClean(v);
    }
  }

  /** Rolling back an update restores the row exactly when every changed column was None or
      False before: all other values come back short of their last character, or not at all. */
  lemma UpdateTextInverts(record: Record, cs: seq<Change>)
    requires UpdateOk(record, cs)
    ensures RevertOf(record, ChangesText(cs)) == Some(Undone(record, cs, |cs|))
       <==> forall i :: 0 <= i < |cs| ==> LosesNothing(cs[i].was)
  {
    hide ParseLine, Line, ChangeOk, LosesNothing, Contains, RevertOf, ChangesText, Undone;
    forall i | 0 <= i < |cs|
      ensures LosesNothing(cs[i].was) ==> !Contains(Text(cs[i].was), BREAK)
    {
      UpdateLine(cs[i]);
    }
    if i :| 0 <= i < |cs| && Contains(Text(cs[i].was), BREAK) {
      BrokenIsLost(record, cs, i);
    } else {
      UnbrokenInverts(record, cs);
    }
  }

  lemma UnbrokenInverts(record: Record, cs: seq<Change>)
    requires UpdateOk(record, cs) && forall i :: 0 <= i < |cs| ==> !Contains(Text(cs[i].was), BREAK)
    ensures RevertOf(record, ChangesText(cs)) == Some(Undone(record, cs, |cs|))
       <==> forall i :: 0 <= i < |cs| ==> LosesNothing(cs[i].was)
  {
    hide ParseLine, Line, ChangeOk, LosesNothing, Clear, Contains, SplitAll, RevertFirst, Undone;
    var lines, n := Lines(cs), |cs|;
    forall i | 0 <= i < n
      ensures Clear(lines[i], BREAK) && !Contains(lines[i], BREAK)
    {
      UpdateLine(cs[i]);
    }
    SplitAllJoin(lines, BREAK);
    UndoneColumns(record, cs, n);
    if forall i :: 0 <= i < n ==> LosesNothing(cs[i].was) {
      RevertSucceeds(record, cs, n);
      RevertColumns(record, cs, n);
      var m, u := RevertFirst(record, lines, n).value, Undone(record, cs, n);
      forall i | 0 <= i < n
        ensures m[cs[i].column] == u[cs[i].column]
      {
        UpdateLine(cs[i]);
      }
      assert m == u;
    } else if RevertFirst(record, lines, n) == Some(Undone(record, cs, n)) {
      RevertColumns(record, cs, n);
      var i :| 0 <= i < n && !LosesNothing(cs[i].was);
      UpdateLine(cs[i]);
      assert false;
    }
  }

  /** The premise on new texts is needed: one with a line break of the log in it, and no line of
      its own behind that, makes the rollback raise, even where the old value was None or False. */
  lemma BreakInNewText(record: Record, column: string, was: Value, x: string, y: string)
    requires Identifier(column) && column in record && LosesNothing(was)
    requires Clear(x, BREAK) && !Contains(y, BREAK) && !Contains(y, ": ")
    ensures RevertOf(record, ChangesText([Change(column, was, Str(x + BREAK + y))])).None?
  {
    hide Clear, Contains, SplitAll, SplitOnce, Identifier, TypeOk, StrToType, Line, RevertFirst;
    var c := Change(column, was, Str(x + BREAK + y));
    RestorableIsClean(was);
    NoBreakInside(Text(was));
    FrontOfBreak(c, x, y);
    var front := Line(Change(column, was, Str(x)));
    assert Lines([c]) == [Line(c)];
    SplitAllFirst(front, BREAK, y);
    SplitAllNone(y, BREAK);
    var lines := SplitAll(Line(c), BREAK);
    assert lines == [front] + [y];
    assert lines[1] == y && |lines| == 2;
    NoSplit(y, ": ");
    RevertStops(record, lines, 1, 2);
  }

  /** And in the other direction: a new text that spells a line of its own can bring back an old
      text that would have lost its last character. */
  lemma LineInNewText(record: Record, column: string, s: string, x: string)
    requires Identifier(column) && column in record && s != "" && CleanText(s) && CleanText(s + ".") && Clear(x, BREAK)
    ensures var spelled := Line(Change(column, Str(s + "."), NoneValue));
            RevertOf(record, ChangesText([Change(column, Str(s), Str(x + BREAK + spelled))])) == Some(record[column := Str(s)])
  {
    hide Clear, Contains, SplitAll, Identifier, TypeOk, Line, RevertFirst, ParseLine, CleanText;
    var first, second := Change(column, Str(s), Str(x)), Change(column, Str(s + "."), NoneValue);
    var c := Change(column, Str(s), Str(x + BREAK + Line(second)));
    StrIsOk(s);
    StrIsOk(s + ".");
    assert Line(c) == Line(first) + BREAK + Line(second) && Clear(Line(first), BREAK) by { FrontOfBreak(c, x, Line(second)); }
    assert !Contains(Line(second), BREAK) by { PrintedRestorable(column, second.was); }
    assert Lines([c]) == [Line(c)];
    SplitAllFirst(Line(first), BREAK, Line(second));
    SplitAllNone(Line(second), BREAK);
    var lines := SplitAll(Line(c), BREAK);
    assert lines == [Line(first)] + [Line(second)] == [Line(first), Line(second)];
    ParsePrintedUpdate(first);
    ParsePrintedUpdate(second);
    assert (s + ".")[..|s + "."| - 1] == s;
    RevertTwice(record, lines, column, Str(s[..|s| - 1]), Str(s));
  }

  lemma StrIsOk(s: string)
    requires CleanText(s)
    ensures TypeOk(Str(s)) && Restorable(Str(s)) && !Contains(s, BREAK) && Clear(" " + s, ARROW)
  {
    hide Clear, Contains;
  }

  lemma RevertTwice(record: Record, lines: seq<string>, column: string, v: Value, w: Value)
    requires |lines| == 2 && column in record
    requires ParseLine(lines[0], true) == Some((column, v)) && ParseLine(lines[1], true) == Some((column, w))
    ensures RevertFirst(record, lines, 2) == Some(record[column := w])
  {
    hide ParseLine;
    assert RevertFirst(record, lines, 1) == Some(record[column := v]);
    assert record[column := v][column := w] == record[column := w];
  }

  lemma FrontOfBreak(c: Change, x: string, y: string)
    requires Identifier(c.column) && TypeOk(c.was) && !Contains(Text(c.was), BREAK)
    requires c.now == Str(x + BREAK + y) && Clear(x, BREAK)
    ensures var front := Line(Change(c.column, c.was, Str(x)));
            Line(c) == front + BREAK + y && Clear(front, BREAK)
  {
    hide Clear, Contains, TypeName, Text, Identifier, TypeOk;
    TypeNameOfStr(c.now);
    TextOfStr(c.now);
    var first := Change(c.column, c.was, Str(x));
    TypeNameOfStr(first.now);
    TextOfStr(first.now);
    assert TypeOk(first.now) by { PlainType(x); }
    LineClear(first);
    BreakAssociates(c.column, TypeName(c.was), Text(c.was), x, y);
  }

  lemma PlainType(x: string)
    ensures TypeOk(Str(x))
  {
  }

  lemma BreakAssociates(column: string, t: string, v: string, x: string, y: string)
    ensures column + ": " + (("[" + t + "] " + v) + ARROW + ("[" + "str" + "] " + (x + BREAK + y)))
         == (column + ": " + (("[" + t + "] " + v) + ARROW + ("[" + "str" + "] " + x))) + BREAK + y
  {
  }

  lemma NoBreakInside(s: string)
    requires CleanText(s)
    ensures !Contains(s, BREAK)
  {
  }

  lemma NoSplit(s: string, sep: string)
    requires !Contains(s, sep)
    ensures SplitOnce(s, sep).None?
  {
  }
}
