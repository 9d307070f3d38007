/**
  What a per-GPU list means (src/gpu/overclock.cpp, oc_parse_list): which entry counts for which
  GPU, what spoils a list, and that every printed list reads back.
 */
module OcListMeaning {
  import opened Options
  import opened OcList

  // ---- fields ----------------------------------------------------------------------------------------

  /** Fields joined by commas. */
  function Joined(fields: seq<string>): string
    requires fields != []
    decreases |fields|
  {
    if |fields| == 1 then fields[0] else fields[0] + "," + Joined(fields[1..])
  }

  ghost predicate NoComma(s: string) { forall i :: 0 <= i < |s| ==> s[i] != ',' }

  lemma {:induction false} CommaOf(field: string, rest: string)
    requires NoComma(field)
    ensures Comma(field) == |field| && Comma(field + "," + rest) == |field|
  {
    var s := field + "," + rest;
    if field == "" {
    } else {
      assert s[1..] == field[1..] + "," + rest;
      CommaOf(field[1..], rest);
    }
  }

  /** Splitting inverts joining. */
  lemma {:induction false} FieldsOfJoined(fields: seq<string>)
    requires fields != [] && forall i :: 0 <= i < |fields| ==> NoComma(fields[i])
    ensures Fields(Joined(fields)) == fields
    decreases |fields|
  {
    hide NoComma, Comma;
    if |fields| == 1 {
      CommaOf(fields[0], "");
    } else {
      var rest := Joined(fields[1..]);
      CommaOf(fields[0], rest);
      FieldsOfJoined(fields[1..]);
      var s := fields[0] + "," + rest;
      assert s[..|fields[0]|] == fields[0] && s[|fields[0]| + 1..] == rest;
      assert fields == [fields[0]] + fields[1..];
    }
  }

  /** And joining inverts splitting: the fields are all of the text, comma-free. */
  lemma {:induction false} JoinedFields(s: string)
    ensures Fields(s) != [] && forall i :: 0 <= i < |Fields(s)| ==> NoComma(Fields(s)[i])
    ensures Joined(Fields(s)) == s
    decreases |s|
  {
    var k := Comma(s);
    if k == |s| {
    } else {
      JoinedFields(s[k + 1..]);
      assert s == s[..k] + "," + s[k + 1..];
      assert Fields(s)[1..] == Fields(s[k + 1..]);
    }
  }

  predicate AllBlank(s: string) { forall i :: 0 <= i < |s| ==> s[i] == ' ' || s[i] == '\t' }

  /** Trimming takes the blanks off both ends, all of them and nothing else. */
  lemma TrimMeans(s: string) returns (left: string, right: string)
    ensures var t := TrimRight(TrimLeft(s));
      && s == left + t + right && AllBlank(left) && AllBlank(right)
      && (t != "" ==> t[0] != ' ' && t[0] != '\t' && t[|t| - 1] != ' ' && t[|t| - 1] != '\t')
  {
    hide TrimLeft, TrimRight;
    left := LeftBlanks(s);
    right := RightBlanks(TrimLeft(s));
  }

  lemma {:induction false} LeftBlanks(s: string) returns (left: string)
    ensures s == left + TrimLeft(s) && AllBlank(left)
    ensures TrimLeft(s) != "" ==> !Blank(TrimLeft(s)[0])
  {
    if s != "" && Blank(s[0]) {
      left := LeftBlanks(s[1..]);
      left := [s[0]] + left;
    } else {
      left := "";
    }
  }

  lemma {:induction false} RightBlanks(s: string) returns (right: string)
    ensures s == TrimRight(s) + right && AllBlank(right)
    ensures var t := TrimRight(s); t != "" ==> !Blank(t[|t| - 1]) && t[0] == s[0]
  {
    if s != "" && Blank(s[|s| - 1]) {
      right := RightBlanks(s[..|s| - 1]);
      right := right + [s[|s| - 1]];
    } else {
      right := "";
    }
  }

  // ---- one entry ---------------------------------------------------------------------------------------

  function Pow10(n: nat): nat { if n == 0 then 1 else 10 * Pow10(n - 1) }

  /** Decimal notation: digits further left weigh ten times more each. */
  lemma {:induction false} NumberIsDecimal(a: string, b: string)
    requires AllDigits(a) && AllDigits(b)
    ensures AllDigits(a + b) && Number(a + b) == Number(a) * Pow10(|b|) + Number(b)
    decreases |b|
  {
    if b == "" {
      assert a + b == a;
    } else {
      assert (a + b)[..|a + b| - 1] == a + b[..|b| - 1];
      NumberIsDecimal(a, b[..|b| - 1]);
      Scaled(Number(a), Pow10(|b| - 1));
    }
  }

  lemma Scaled(a: nat, p: nat)
    ensures 10 * (a * p) == a * (10 * p)
  {
  }

  lemma DigitsCount(v: nat)
    requires v < 10
    ensures AllDigits(["0123456789"[v]]) && Number(["0123456789"[v]]) == v
  {
    var c := "0123456789"[v];
    assert [c][..0] == "";
    assert c as nat == '0' as nat + v;
  }

  /** strtol cuts to the ends of 64 bits. */
  lemma SaturateMeans(v: int)
    ensures -9223372036854775808 <= Saturate(v) <= 9223372036854775807
    ensures -9223372036854775808 <= v <= 9223372036854775807 ==> Saturate(v) == v
    ensures v > 9223372036854775807 ==> Saturate(v) == 9223372036854775807
    ensures v < -9223372036854775808 ==> Saturate(v) == -9223372036854775808
  {
  }

  /** tok is a number with that sign: digits, with an explicit sign only where signs are admitted. */
  predicate Spells(tok: string, negative: bool, minus: bool, digits: string)
  {
    && digits != "" && AllDigits(digits)
    && if minus then negative && tok == "-" + digits else tok == digits || (negative && tok == "+" + digits)
  }

  function Meant(minus: bool, digits: string): int
    requires AllDigits(digits)
  {
    if minus then Saturate(-(Number(digits) as int)) else Saturate(Number(digits))
  }

  /** Everything an entry can be read as. */
  lemma EntryMeans(tok: string, negative: bool)
    ensures ParseEntry(tok, negative) == Skip <==> tok == "*"
    ensures forall minus, digits :: Spells(tok, negative, minus, digits) ==>
      ParseEntry(tok, negative) == if negative || Meant(minus, digits) > 0 then Value(Meant(minus, digits)) else Bad(NotPositive)
    ensures tok != "*" && !(exists minus, digits :: Spells(tok, negative, minus, digits)) ==>
      ParseEntry(tok, negative) == Bad(if tok == "" then EmptyEntry
                                       else if negative && (tok == "-" || tok == "+") then NoDigits else NotANumber)
  {
    hide Number, Saturate;
    forall minus, digits | Spells(tok, negative, minus, digits)
      ensures ParseEntry(tok, negative) == if negative || Meant(minus, digits) > 0 then Value(Meant(minus, digits)) else Bad(NotPositive)
    {
      SpelledEntry(tok, negative, minus, digits);
    }
    var from := SignLength(tok, negative);
    if tok != "" && tok != "*" && |tok| > from && AllDigits(tok[from..]) {
      assert tok == tok[..from] + tok[from..];
      assert from == 0 ==> tok[from..] == tok;
      assert Spells(tok, negative, from == 1 && tok[0] == '-', tok[from..]);
    }
  }

  lemma SpelledEntry(tok: string, negative: bool, minus: bool, digits: string)
    requires Spells(tok, negative, minus, digits)
    ensures ParseEntry(tok, negative) == if negative || Meant(minus, digits) > 0 then Value(Meant(minus, digits)) else Bad(NotPositive)
  {
    hide Number, Saturate;
    assert IsDigit(digits[0]);
    if tok == digits {
      assert SignLength(tok, negative) == 0 && tok[0..] == digits;
    } else {
      assert SignLength(tok, negative) == 1 && tok[1..] == digits;
    }
  }

  // ---- a whole list --------------------------------------------------------------------------------------

  function EntryOf(field: string, negative: bool): Entry { ParseEntry(TrimRight(TrimLeft(field)), negative) }

  /** Entry k is the first that cannot be read. */
  predicate FirstBad(fields: seq<string>, k: int, negative: bool)
  {
    0 <= k < |fields| && EntryOf(fields[k], negative).Bad? && forall i :: 0 <= i < k ==> !EntryOf(fields[i], negative).Bad?
  }

  ghost predicate AnyBad(fields: seq<string>, negative: bool) { exists k :: FirstBad(fields, k, negative) }

  lemma {:induction false} ScanMeans(fields: seq<string>, index: int, negative: bool)
    ensures var r := Scan(fields, index, negative);
      && (AnyBad(fields, negative) ==> exists k :: FirstBad(fields, k, negative) && r == Malformed(EntryOf(fields[k], negative).reason))
      && (!AnyBad(fields, negative) ==>
            r == if 0 <= index < |fields| && EntryOf(fields[index], negative).Value?
                 then Given(EntryOf(fields[index], negative).v) else Skipped)
    decreases |fields|
  {
    hide ParseEntry, TrimLeft, TrimRight;
    if fields == [] {
      NoneBad(negative);
    } else {
      var rest := fields[1..];
      ScanMeans(rest, index - 1, negative);
      if EntryOf(fields[0], negative).Bad? {
        BadInFront(fields, negative);
      } else {
        BadBehind(fields, negative);
        if AnyBad(rest, negative) {
          var k :| FirstBad(rest, k, negative) && Scan(rest, index - 1, negative) == Malformed(EntryOf(rest[k], negative).reason);
          assert FirstBad(fields, k + 1, negative);
        }
      }
    }
  }

  lemma NoneBad(negative: bool)
    ensures !AnyBad([], negative)
  {
  }

  lemma BadInFront(fields: seq<string>, negative: bool)
    requires fields != [] && EntryOf(fields[0], negative).Bad?
    ensures FirstBad(fields, 0, negative)
  {
  }

  lemma BadBehind(fields: seq<string>, negative: bool)
    requires fields != [] && !EntryOf(fields[0], negative).Bad?
    ensures forall k :: FirstBad(fields[1..], k, negative) ==> FirstBad(fields, k + 1, negative)
    ensures AnyBad(fields, negative) <==> AnyBad(fields[1..], negative)
  {
    hide ParseEntry, TrimLeft, TrimRight;
    var rest := fields[1..];
    forall k | FirstBad(rest, k, negative) ensures FirstBad(fields, k + 1, negative) {
      assert forall i :: 1 <= i < k + 1 ==> fields[i] == rest[i - 1];
    }
    if k :| FirstBad(fields, k, negative) {
      assert forall i :: 0 <= i < k - 1 ==> rest[i] == fields[i + 1];
      assert FirstBad(rest, k - 1, negative);
    }
  }

  /**
    A list is rejected exactly when it is empty or some entry of it, whichever GPU's, cannot be
    read, for the reason of the first such entry; otherwise GPU `index` gets the value of its own
    entry, and nothing if that is '*' or past the end.
   */
  lemma ParseListMeans(spec: string, index: nat, negative: bool)
    ensures var r, fields := ParseList(spec, index, negative), Fields(spec);
      && (r.Malformed? <==> spec == "" || AnyBad(fields, negative))
      && (spec == "" ==> r == Malformed(EmptyValue))
      && (spec != "" && AnyBad(fields, negative) ==>
            exists k :: FirstBad(fields, k, negative) && r == Malformed(EntryOf(fields[k], negative).reason))
      && forall v :: r == Given(v) <==>
           spec != "" && !AnyBad(fields, negative) && index < |fields| && EntryOf(fields[index], negative) == Value(v)
  {
    hide Scan, Fields, ParseEntry, TrimLeft, TrimRight;
    ScanMeans(Fields(spec), index, negative);
  }

  // ---- printed lists ---------------------------------------------------------------------------------------

  /** A list with one entry per GPU: its value, or '*' to leave it alone. */
  function Printed(entries: seq<Option<int>>): seq<string>
  {
    seq(|entries|, i requires 0 <= i < |entries| => if entries[i].Some? then ToString(entries[i].value) else "*")
  }

  /** Printed with its commas it reads back, for every GPU of the list and beyond. */
  lemma ListRoundTrips(entries: seq<Option<int>>, at: nat, negative: bool)
    requires entries != []
    requires forall i :: 0 <= i < |entries| && entries[i].Some? ==>
      -LONG_MAX - 1 <= entries[i].value <= LONG_MAX && (negative || entries[i].value > 0)
    ensures ParseList(Joined(Printed(entries)), at, negative)
         == if at < |entries| && entries[at].Some? then Given(entries[at].value) else Skipped
  {
    hide ParseEntry, TrimLeft, TrimRight, ToString, Scan, Fields, Joined, FirstBad, Plain;
    var fields := Printed(entries);
    forall i | 0 <= i < |fields|
      ensures NoComma(fields[i]) && fields[i] != ""
      ensures EntryOf(fields[i], negative) == if entries[i].Some? then Value(entries[i].value) else Skip
    {
      PrintedEntry(entries[i], negative);
    }
    FieldsOfJoined(fields);
    NotEmpty(fields);
    NoBadEntry(fields, negative);
    ScanMeans(fields, at, negative);
  }

  lemma PrintedEntry(e: Option<int>, negative: bool)
    requires e.Some? ==> -LONG_MAX - 1 <= e.value <= LONG_MAX && (negative || e.value > 0)
    ensures var field := if e.Some? then ToString(e.value) else "*";
      && NoComma(field) && field != ""
      && EntryOf(field, negative) == if e.Some? then Value(e.value) else Skip
  {
    hide ParseEntry, ToString, Fields;
    if e.Some? {
      ReadsBack(e.value, negative);
      PlainIsOneField(ToString(e.value));
    } else {
      StarIsSkipped(negative);
    }
  }

  lemma NotEmpty(fields: seq<string>)
    requires fields != [] && fields[0] != ""
    ensures Joined(fields) != ""
  {
  }

  lemma NoBadEntry(fields: seq<string>, negative: bool)
    requires forall i :: 0 <= i < |fields| ==> !EntryOf(fields[i], negative).Bad?
    ensures !AnyBad(fields, negative)
  {
    hide ParseEntry, TrimLeft, TrimRight;
  }
}
