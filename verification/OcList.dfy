/** The per-GPU list syntax (src/gpu/overclock.cpp, oc_parse_list and oc_spec_at). */
module OcList {
  // ---- numbers --------------------------------------------------------------------------------

  predicate IsDigit(c: char) { '0' <= c <= '9' }

  predicate AllDigits(s: string) { forall i :: 0 <= i < |s| ==> IsDigit(s[i]) }

  function Number(s: string): (n: nat)
    requires AllDigits(s)
  {
    if s == "" then 0 else 10 * Number(s[..|s| - 1]) + (s[|s| - 1] as nat - '0' as nat)
  }

  const LONG_MAX: int := 0x7FFF_FFFF_FFFF_FFFF

  /** strtol's range. */
  function Saturate(v: int): int { if v > LONG_MAX then LONG_MAX else if v < -LONG_MAX - 1 then -LONG_MAX - 1 else v }

  function Digits(n: nat): (s: string)
    ensures s != "" && AllDigits(s) && Number(s) == n
  {
    if n < 10 then
      var s := [(n + '0' as nat) as char];
      assert s[..0] == "";
      s
    else
      var front, s := Digits(n / 10), Digits(n / 10) + [(n % 10 + '0' as nat) as char];
      assert s[..|s| - 1] == front;
      s
  }

  /** std::to_string. */
  function ToString(v: int): string { if v < 0 then "-" + Digits(-v) else Digits(v) }

  // ---- one list ---------------------------------------------------------------------------------

  datatype Reason = EmptyValue | EmptyEntry | NoDigits | NotANumber | NotPositive

  datatype Entry = Skip | Value(v: int) | Bad(reason: Reason)

  /** What a list says about one GPU. */
  datatype Parsed = Malformed(reason: Reason) | Skipped | Given(v: int)

  predicate Blank(c: char) { c == ' ' || c == '\t' }

  function TrimLeft(s: string): string { if s != "" && Blank(s[0]) then TrimLeft(s[1..]) else s }

  function TrimRight(s: string): string { if s != "" && Blank(s[|s| - 1]) then TrimRight(s[..|s| - 1]) else s }

  function Comma(s: string): (k: nat)
    ensures k <= |s| && (k < |s| ==> s[k] == ',') && forall j :: 0 <= j < k ==> s[j] != ','
  {
    if s == "" || s[0] == ',' then 0 else 1 + Comma(s[1..])
  }

  /** The text between commas. */
  function Fields(s: string): (fs: seq<string>)
    decreases |s|
  {
    var k := Comma(s);
    if k == |s| then [s] else [s[..k]] + Fields(s[k + 1..])
  }

  function SignLength(tok: string, negative: bool): (n: nat)
    ensures n <= |tok|
  {
    if negative && tok != "" && (tok[0] == '-' || tok[0] == '+') then 1 else 0
  }

  function Strtol(tok: string, from: nat): int
    requires from <= |tok| && AllDigits(tok[from..])
  {
    var n: int := Number(tok[from..]);
    Saturate(if from == 1 && tok[0] == '-' then -n else n)
  }

  /** `negative` admits signs and zero. */
  function ParseEntry(tok: string, negative: bool): Entry
  {
    var from := SignLength(tok, negative);
    if tok == "" then Bad(EmptyEntry)
    else if tok == "*" then Skip
    else if |tok| == from then Bad(NoDigits)
    else if !AllDigits(tok[from..]) then Bad(NotANumber)
    else if !negative && Strtol(tok, from) <= 0 then Bad(NotPositive)
    else Value(Strtol(tok, from))
  }

  /** One entry in front of what the rest of the list says. */
  function InFront(e: Entry, index: int, rest: Parsed): Parsed
  {
    if e.Bad? then Malformed(e.reason)
    else if rest.Malformed? then rest
    else if index == 0 && e.Value? then Given(e.v)
    else rest
  }

  /** The first bad entry spoils the whole list; past the end a list says nothing. */
  function Scan(fields: seq<string>, index: int, negative: bool): Parsed
    decreases |fields|
  {
    if fields == [] then Skipped
    else InFront(ParseEntry(TrimRight(TrimLeft(fields[0])), negative), index, Scan(fields[1..], index - 1, negative))
  }

  function ParseList(spec: string, index: nat, negative: bool): Parsed
  {
    if spec == "" then Malformed(EmptyValue) else Scan(Fields(spec), index, negative)
  }

  // ---- the loops ----------------------------------------------------------------------------------

  method Find(s: string, from: nat) returns (k: nat)
    requires from <= |s|
    ensures k == from + Comma(s[from..])
  {
    k := from;
    while k < |s| && s[k] != ','
      invariant from <= k <= |s| && k - from + Comma(s[k..]) == Comma(s[from..])
    {
      k := k + 1;
    }
  }

  method Trim(s: string) returns (t: string)
    ensures t == TrimRight(TrimLeft(s))
  {
    t := s;
    while t != "" && Blank(t[0])
      invariant TrimLeft(t) == TrimLeft(s)
      decreases |t|
    {
      t := t[1..];
    }
    ghost var left := t;
    while t != "" && Blank(t[|t| - 1])
      invariant TrimRight(t) == TrimRight(left)
      decreases |t|
    {
      t := t[..|t| - 1];
    }
  }

  method Digit(tok: string, from: nat) returns (ok: bool)
    requires from <= |tok|
    ensures ok <==> AllDigits(tok[from..])
  {
    for i := from to |tok|
      invariant forall j :: from <= j < i ==> IsDigit(tok[j])
    {
      if tok[i] < '0' || tok[i] > '9' {
        assert tok[from..][i - from] == tok[i];
        return false;
      }
    }
    return true;
  }

  /** What is known after some fields, and what the rest adds to it. */
  function Then(found: bool, value: int, rest: Parsed): Parsed
  {
    if rest.Malformed? || !found then rest else Given(value)
  }

  lemma {:induction false} BeforeTheList(fields: seq<string>, index: int, negative: bool)
    requires index < 0
    ensures !Scan(fields, index, negative).Given?
    decreases |fields|
  {
    if fields == [] {
    } else {
      BeforeTheList(fields[1..], index - 1, negative);
    }
  }

  lemma ScanStep(spec: string, pos: nat, comma: nat, index: int, negative: bool)
    requires pos <= |spec| && comma == pos + Comma(spec[pos..])
    ensures pos <= comma <= |spec|
    ensures Scan(Fields(spec[pos..]), index, negative)
         == InFront(ParseEntry(TrimRight(TrimLeft(spec[pos..comma])), negative), index,
                    if comma == |spec| then Skipped else Scan(Fields(spec[comma + 1..]), index - 1, negative))
  {
    hide ParseEntry, TrimLeft, TrimRight, InFront;
    var s := spec[pos..];
    assert s[..comma - pos] == spec[pos..comma];
    if comma < |spec| {
      assert s[comma - pos + 1..] == spec[comma + 1..];
      assert Fields(s)[1..] == Fields(spec[comma + 1..]);
    } else {
      assert s[..|s|] == s && Fields(s) == [s];
      assert Fields(s)[1..] == [] && Scan([], index - 1, negative) == Skipped;
    }
  }

  method OcParseList(spec: string, index: nat, negative: bool) returns (r: Parsed)
    ensures r == ParseList(spec, index, negative)
  {
    hide ParseEntry, TrimLeft, TrimRight, Scan, Fields;
    if spec == "" { return Malformed(EmptyValue); }
    var n, pos, found, value := 0, 0, false, 0;
    assert spec[0..] == spec;
    while true
      invariant 0 <= pos <= |spec| && (found ==> n > index)
      invariant ParseList(spec, index, negative) == Then(found, value, Scan(Fields(spec[pos..]), index - n, negative))
      decreases |spec| - pos
    {
      var comma := Find(spec, pos);
      var tok := Trim(spec[pos..comma]);
      ScanStep(spec, pos, comma, index - n, negative);
      if comma < |spec| && index <= n {
        BeforeTheList(Fields(spec[comma + 1..]), index - n - 1, negative);
      }
      var e := CheckEntry(tok, negative);
      if e.Bad? { return Malformed(e.reason); }
      if e.Value? && n == index { value, found := e.v, true; }
      n := n + 1;
      if comma == |spec| { break; }
      pos := comma + 1;
    }
    r := if found then Given(value) else Skipped;
  }

  /** The checks on one trimmed entry. */
  method CheckEntry(tok: string, negative: bool) returns (e: Entry)
    ensures e == ParseEntry(tok, negative)
  {
    if tok == "" { return Bad(EmptyEntry); }
    if tok == "*" { return Skip; }
    var from := 0;
    if negative && (tok[0] == '-' || tok[0] == '+') { from := 1; }
    if |tok| == from { return Bad(NoDigits); }
    var ok := Digit(tok, from);
    if !ok { return Bad(NotANumber); }
    var v := Strtol(tok, from);
    if !negative && v <= 0 { return Bad(NotPositive); }
    return Value(v);
  }

  function Stars(n: nat): string { if n == 0 then "" else Stars(n - 1) + "*," }

  method OcSpecAt(index: nat, value: int) returns (s: string)
    ensures s == Stars(index) + ToString(value)
  {
    s := "";
    for i := 0 to index
      invariant s == Stars(i)
    {
      s := s + "*,";
    }
    s := s + ToString(value);
  }

  // ---- the round trip ------------------------------------------------------------------------------

  predicate Plain(s: string) { forall i :: 0 <= i < |s| ==> s[i] != ',' && !Blank(s[i]) }

  lemma PlainIsOneField(s: string)
    requires Plain(s)
    ensures Fields(s) == [s] && TrimRight(TrimLeft(s)) == s
  {
  }

  lemma {:induction false} StarsPrefix(n: nat)
    requires n > 0
    ensures Stars(n) == "*," + Stars(n - 1)
  {
    if n > 1 {
      StarsPrefix(n - 1);
      assert ("*," + Stars(n - 2)) + "*," == "*," + (Stars(n - 2) + "*,");
    }
  }

  lemma FieldsOfStar(rest: string)
    ensures Fields("*," + rest) == ["*"] + Fields(rest)
  {
    var s := "*," + rest;
    assert s[0] == '*' && s[1..][0] == ',';
    assert Comma(s[1..]) == 0;
    assert Comma(s) == 1;
    assert s[2..] == rest && s[..1] == "*";
  }

  lemma StarIsSkipped(negative: bool)
    ensures ParseEntry(TrimRight(TrimLeft("*")), negative) == Skip
  {
  }

  lemma ScanStar(fields: seq<string>, index: int, negative: bool)
    ensures Scan(["*"] + fields, index, negative) == Scan(fields, index - 1, negative)
  {
    StarIsSkipped(negative);
    assert (["*"] + fields)[1..] == fields;
  }

  lemma {:induction false} ScanStars(n: nat, last: string, index: int, negative: bool)
    requires Plain(last)
    ensures Scan(Fields(Stars(n) + last), index, negative) == Scan([last], index - n, negative)
  {
    hide Scan, Fields, Plain;
    if n == 0 {
      assert Stars(0) + last == last;
      PlainIsOneField(last);
    } else {
      StarsPrefix(n);
      var rest := Stars(n - 1) + last;
      assert Stars(n) + last == "*," + rest;
      FieldsOfStar(rest);
      ScanStar(Fields(rest), index, negative);
      ScanStars(n - 1, last, index - 1, negative);
    }
  }

  /** Printing and reading back one entry. */
  lemma ReadsBack(v: int, negative: bool)
    requires -LONG_MAX - 1 <= v <= LONG_MAX && (negative || v > 0)
    ensures Plain(ToString(v)) && ToString(v) != "" && ParseEntry(ToString(v), negative) == Value(v)
  {
    var d := Digits(if v < 0 then -v else v);
    var s := ToString(v);
    assert s[0] == '-' || IsDigit(s[0]);
    if v < 0 {
      assert s[1..] == d;
    } else {
      assert s[0..] == d;
    }
  }

  /** A list printed for one GPU reads back its value there and "skipped" everywhere else. */
  lemma SpecAtRoundTrips(index: nat, value: int, at: nat, negative: bool)
    requires -LONG_MAX - 1 <= value <= LONG_MAX && (negative || value > 0)
    ensures ParseList(Stars(index) + ToString(value), at, negative) == if at == index then Given(value) else Skipped
  {
    hide ParseEntry, ToString, Stars;
    ReadsBack(value, negative);
    PlainIsOneField(ToString(value));
    ScanStars(index, ToString(value), at, negative);
  }
}
