/** The reader finds exactly the end of every valid value, and counts its members. */
module JsonExact {
  import opened Decimal
  import opened Json
  import opened JsonSkip

  // ---------------------------------------------------------------- texts inside texts

  /** `t` stands at position `p` of `s`. */
  ghost predicate Has(s: string, p: nat, t: string) {
    p + |t| <= |s| && s[p..p + |t|] == t
  }

  lemma HasBoth(s: string, p: nat, t: string, u: string)
    requires Has(s, p, t + u)
    ensures Has(s, p, t) && Has(s, p + |t|, u) && p + |t| + |u| <= |s|
  {
    var w := t + u;
    assert s[p..p + |t|] == w[..|t|];
    assert s[p + |t|..p + |w|] == w[|t|..];
  }

  lemma HasChar(s: string, p: nat, t: string, i: nat)
    requires Has(s, p, t) && i < |t|
    ensures p + i < |s| && s[p + i] == t[i]
  {
    assert s[p..p + |t|][i] == s[p + i];
  }

  // ---------------------------------------------------------------- strings

  /** A string's content with the closing quote. */
  function Closed(units: seq<Unit>): string {
    Content(units) + ['"']
  }

  lemma JustQuote()
    ensures Closed([]) == ['"']
  {
  }

  lemma ClosedUnfold(units: seq<Unit>)
    requires units != []
    ensures Closed(units) == UnitText(units[0]) + Closed(units[1..])
    ensures |Closed(units)| == |UnitText(units[0])| + |Closed(units[1..])| && |Closed(units[1..])| > 0
  {
  }

  /** The scan passes over one unit at a time. */
  lemma UnitSlow(u: Unit, s: string, p: nat)
    requires ValidUnit(u) && Has(s, p, UnitText(u)) && p + |UnitText(u)| < |s|
    ensures SlowEnd(s, p) == SlowEnd(s, p + |UnitText(u)|)
  {
    HasChar(s, p, UnitText(u), 0);
    if !u.Plain? {
      HasChar(s, p, UnitText(u), 1);
    }
  }

  lemma ClosingQuote(s: string, p: nat)
    requires Has(s, p, ['"'])
    ensures p < |s| && SlowEnd(s, p) == At(p + 1) && FindQuote(s, p) == p
  {
    HasChar(s, p, ['"'], 0);
  }

  lemma {:induction false} SlowExact(units: seq<Unit>, s: string, p: nat)
    requires ValidUnits(units) && Has(s, p, Closed(units))
    ensures p <= |s| && SlowEnd(s, p) == At(p + |Closed(units)|)
    decreases |units|
  {
    hide Has, Closed, SlowEnd, UnitText, ValidUnit;
    if units == [] {
      JustQuote();
      ClosingQuote(s, p);
    } else {
      var first := UnitText(units[0]);
      ClosedUnfold(units);
      HasBoth(s, p, first, Closed(units[1..]));
      UnitSlow(units[0], s, p);
      SlowExact(units[1..], s, p + |first|);
    }
  }

  /** Every quote before the closing one follows a backslash. */
  lemma {:induction false} FirstQuote(units: seq<Unit>, s: string, p: nat)
    requires p > 0 && ValidUnits(units) && Has(s, p, Closed(units))
    ensures p <= |s| && FindQuote(s, p) < p + |Closed(units)|
    ensures FindQuote(s, p) + 1 < p + |Closed(units)| ==> s[FindQuote(s, p) - 1] == '\\'
    decreases |units|
  {
    hide Has, Closed, FindQuote, UnitText, ValidUnit;
    if units == [] {
      JustQuote();
      ClosingQuote(s, p);
    } else {
      var first := UnitText(units[0]);
      ClosedUnfold(units);
      HasBoth(s, p, first, Closed(units[1..]));
      FirstQuote(units[1..], s, p + |first|);
      UnitQuote(units[0], s, p);
    }
  }

  lemma UnitQuote(u: Unit, s: string, p: nat)
    requires ValidUnit(u) && Has(s, p, UnitText(u))
    ensures p + |UnitText(u)| <= |s|
    ensures FindQuote(s, p) == (if u == Escaped('"') then p + 1 else FindQuote(s, p + |UnitText(u)|))
    ensures u == Escaped('"') ==> s[p] == '\\' && |UnitText(u)| == 2
  {
    HasChar(s, p, UnitText(u), 0);
    if u.Escaped? {
      HasChar(s, p, UnitText(u), 1);
    } else if u.Unicode? {
      HasChar(s, p, UnitText(u), 1);
      HasChar(s, p, UnitText(u), 2);
      HasChar(s, p, UnitText(u), 3);
      HasChar(s, p, UnitText(u), 4);
      HasChar(s, p, UnitText(u), 5);
      assert FindQuote(s, p) == FindQuote(s, p + 2) == FindQuote(s, p + 4) == FindQuote(s, p + 6);
    }
  }

  lemma QuotedIsClosed(units: seq<Unit>)
    ensures Quoted(units) == ['"'] + Closed(units)
  {
  }

  /** On a valid string the search for a quote and the character-by-character scan end at the same place. */
  lemma StringExact(units: seq<Unit>, s: string, begin: nat)
    requires ValidUnits(units) && Has(s, begin, Quoted(units))
    ensures StringEnd(s, begin) == SlowEnd(s, begin + 1) == At(begin + |Quoted(units)|)
  {
    hide Has, Content, SlowEnd, FindQuote, Closed, Quoted;
    QuotedIsClosed(units);
    HasBoth(s, begin, ['"'], Closed(units));
    HasChar(s, begin, ['"'], 0);
    SlowExact(units, s, begin + 1);
    FirstQuote(units, s, begin + 1);
  }

  /** A `\u` escape, with escapes read from `p` on, reaches to `q` or over it. */
  predicate Spans(s: string, p: nat, q: nat)
    requires p <= q <= |s|
    decreases q - p
  {
    if p + 1 >= q then false
    else if s[p] != '\\' then Spans(s, p + 1, q)
    else if s[p + 1] != 'u' then Spans(s, p + 2, q)
    else q <= p + 5 || Spans(s, p + 6, q)
  }

  lemma {:induction false} SameQuote(s: string, p: nat, r: nat)
    requires p <= |s| && p <= r <= FindQuote(s, p)
    ensures FindQuote(s, r) == FindQuote(s, p)
    decreases r - p
  {
    if p < r {
      SameQuote(s, p + 1, r);
    }
  }

  /** The scan stops at the first quote unless an escape carries it over. */
  lemma {:induction false} ScanToQuote(s: string, p: nat, q: nat)
    requires p <= q < |s| && q == FindQuote(s, p) && (p < q ==> s[q - 1] != '\\')
    ensures SlowEnd(s, p) == At(q + 1) <==> !Spans(s, p, q)
    decreases q - p
  {
    if p + 1 < q {
      if s[p] != '\\' {
        SameQuote(s, p, p + 1);
        ScanToQuote(s, p + 1, q);
      } else if s[p + 1] != 'u' {
        SameQuote(s, p, p + 2);
        ScanToQuote(s, p + 2, q);
      } else if q > p + 5 {
        SameQuote(s, p, p + 6);
        ScanToQuote(s, p + 6, q);
      }
    }
  }

  /** On any text the fast path agrees with the scan if and only if no `\u` escape reaches over the first quote. */
  lemma PathsAgree(s: string, begin: nat, q: nat)
    requires begin < |s| && s[begin] == '"' && q == FindQuote(s, begin + 1)
    ensures StringEnd(s, begin) == SlowEnd(s, begin + 1)
      <==> !(q < |s| && s[q - 1] != '\\' && Spans(s, begin + 1, q))
  {
    hide SlowEnd, FindQuote;
    if q < |s| && s[q - 1] != '\\' {
      ScanToQuote(s, begin + 1, q);
    }
  }

  /** Such a text: an escape of three characters before the quote, and another quote behind. */
  lemma PathsDiffer()
    ensures StringEnd("\"\\u12\"3\"", 0) == At(6) && SlowEnd("\"\\u12\"3\"", 1) == At(8)
  {
    var s := "\"\\u12\"3\"";
    assert s[0] == '"' && s[1] == '\\' && s[2] == 'u' && s[3] == '1' && s[4] == '2' && s[5] == '"' && s[7] == '"';
    assert FindQuote(s, 1) == FindQuote(s, 3) == FindQuote(s, 5) == 5;
    assert SlowEnd(s, 1) == SlowEnd(s, 7);
  }

  // ---------------------------------------------------------------- numbers

  /** What may follow a value: the end of the data, or the character after a member. */
  predicate Delimited(s: string, p: nat) {
    p == |s| || (p < |s| && (s[p] == ',' || s[p] == ']' || s[p] == '}'))
  }

  lemma {:induction false} DigitsExact(s: string, p: nat, t: string)
    requires Has(s, p, t) && AllDigits(t) && (p + |t| < |s| ==> !IsDigit(s[p + |t|]))
    ensures DigitsEnd(s, p) == p + |t|
    decreases |t|
  {
    if |t| > 0 {
      assert t == t[..1] + t[1..];
      HasChar(s, p, t, 0);
      HasBoth(s, p, t[..1], t[1..]);
      DigitsExact(s, p + 1, t[1..]);
    }
  }

  lemma ExponentExact(e: Exponent, s: string, p: nat)
    requires ValidExponent(e) && p <= |s| && Has(s, p, ExponentText(e)) && Delimited(s, p + |ExponentText(e)|)
    ensures DigitsEnd(s, PastChar(s, PastChar(s, p, 'e', 'E'), '-', '-')) == p + |ExponentText(e)|
    ensures p < |s| ==> !IsDigit(s[p]) && s[p] != '.'
  {
    hide DigitsEnd, Has;
    match e
    case NoExponent =>
      DigitsExact(s, p, "");
    case Exponent(upper, negative, digits) =>
      var letter, minus := if upper then "E" else "e", if negative then "-" else "";
      assert ExponentText(e) == letter + (minus + digits);
      LetterExact(letter, minus, digits, s, p);
  }

  lemma LetterExact(letter: string, minus: string, digits: string, s: string, p: nat)
    requires letter == "E" || letter == "e"
    requires minus == "" || minus == "-"
    requires |digits| > 0 && AllDigits(digits)
    requires Has(s, p, letter + (minus + digits)) && Delimited(s, p + 1 + |minus| + |digits|)
    ensures p < |s| && !IsDigit(s[p]) && s[p] != '.'
    ensures DigitsEnd(s, PastChar(s, PastChar(s, p, 'e', 'E'), '-', '-')) == p + 1 + |minus| + |digits|
  {
    hide DigitsEnd, Has;
    HasBoth(s, p, letter, minus + digits);
    HasChar(s, p, letter, 0);
    HasBoth(s, p + 1, minus, digits);
    HasChar(s, p + 1 + |minus|, digits, 0);
    if minus == "-" {
      HasChar(s, p + 1, minus, 0);
    }
    DigitsExact(s, p + 1 + |minus|, digits);
  }

  function PointText(fraction: string): string {
    if fraction == "" then "" else "." + fraction
  }

  lemma FractionExact(fraction: string, s: string, p: nat, q: nat)
    requires AllDigits(fraction) && p <= |s| && Has(s, p, PointText(fraction)) && q == p + |PointText(fraction)|
    requires q < |s| ==> !IsDigit(s[q]) && s[q] != '.'
    ensures DigitsEnd(s, PastChar(s, p, '.', '.')) == q
    ensures p < |s| ==> !IsDigit(s[p])
  {
    hide DigitsEnd, Has;
    if fraction == "" {
      NoDigits(s, p);
    } else {
      HasBoth(s, p, ".", fraction);
      HasChar(s, p, ".", 0);
      DigitsExact(s, p + 1, fraction);
    }
  }

  lemma NoDigits(s: string, p: nat)
    requires p <= |s| && (p < |s| ==> !IsDigit(s[p]))
    ensures DigitsEnd(s, p) == p
  {
  }

  /** The four parts of a number and where each ends. */
  lemma NumberParts(minus: string, whole: string, fraction: string, exponent: Exponent, s: string, begin: nat, q: nat, r: nat)
    requires minus == "" || minus == "-"
    requires |whole| > 0 && AllDigits(whole) && AllDigits(fraction) && ValidExponent(exponent)
    requires Has(s, begin, minus) && Has(s, begin + |minus|, whole) && q == begin + |minus| + |whole| <= |s|
    requires Has(s, q, PointText(fraction)) && r == q + |PointText(fraction)| <= |s|
    requires Has(s, r, ExponentText(exponent)) && Delimited(s, r + |ExponentText(exponent)|)
    ensures NumberEnd(s, begin) == At(r + |ExponentText(exponent)|)
    ensures begin < |s| && (s[begin] == '-' || IsDigit(s[begin]))
  {
    hide DigitsEnd, Delimited, Has, PointText, ExponentText, AllDigits;
    ExponentExact(exponent, s, r);
    FractionExact(fraction, s, q, r);
    WholeExact(minus, whole, s, begin);
    DigitsExact(s, begin + |minus|, whole);
    hide PastChar;
  }

  lemma WholeExact(minus: string, whole: string, s: string, begin: nat)
    requires minus == "" || minus == "-"
    requires |whole| > 0 && AllDigits(whole) && Has(s, begin, minus) && Has(s, begin + |minus|, whole)
    ensures begin < |s| && (s[begin] == '-' || IsDigit(s[begin]))
    ensures PastChar(s, begin, '-', '-') == begin + |minus|
  {
    hide Has;
    HasChar(s, begin + |minus|, whole, 0);
    if minus == "-" {
      HasChar(s, begin, minus, 0);
    }
  }

  lemma NumberExact(v: Value, s: string, begin: nat)
    requires v.Number? && Valid(v) && Has(s, begin, Text(v)) && Delimited(s, begin + |Text(v)|)
    ensures NumberEnd(s, begin) == At(begin + |Text(v)|)
    ensures begin < |s| && (s[begin] == '-' || IsDigit(s[begin]))
  {
    hide DigitsEnd, Delimited, Has, NumberEnd, AllDigits;
    var minus := if v.negative then "-" else "";
    var point, exponent := PointText(v.fraction), ExponentText(v.exponent);
    assert Text(v) == minus + (v.whole + (point + exponent));
    hide Text, PointText, ExponentText;
    HasBoth(s, begin, minus, v.whole + (point + exponent));
    HasBoth(s, begin + |minus|, v.whole, point + exponent);
    var q := begin + |minus| + |v.whole|;
    HasBoth(s, q, point, exponent);
    NumberParts(minus, v.whole, v.fraction, v.exponent, s, begin, q, q + |point|);
  }

  // ---------------------------------------------------------------- whole values

  /** Items with the closing bracket, members with the closing brace. */
  function ClosedItems(items: Items): string
    requires items.Item?
  {
    ItemsText(items) + "]"
  }

  function ClosedMembers(members: Members): string
    requires members.Member?
  {
    MembersText(members) + "}"
  }

  lemma TextStarts(v: Value)
    requires Valid(v)
    ensures |Text(v)| > 0
    ensures v.Null? ==> Text(v)[0] == 'n'
    ensures v.Bool? ==> Text(v)[0] == if v.b then 't' else 'f'
    ensures v.String? ==> Text(v)[0] == '"'
    ensures v.Array? ==> Text(v)[0] == '['
    ensures v.Object? ==> Text(v)[0] == '{'
  {
  }

  /** The element at `begin` ends right after the text of `v`, for every valid `v` within the depth limit. */
  lemma {:induction false} ElementExact(v: Value, s: string, begin: nat, level: nat)
    requires Valid(v) && level + Depth(v) <= JSON_MAX_DEPTH
    requires Has(s, begin, Text(v)) && Delimited(s, begin + |Text(v)|)
    ensures InitOK(s, begin, level) && ElementEnd(s, begin, level) == At(begin + |Text(v)|)
    decreases v, 0
  {
    match v {
      case Array(items) =>
        StartsElement(v, s, begin);
        ArrayExact(items, s, begin, level);
      case Object(members) =>
        StartsElement(v, s, begin);
        ObjectExact(members, s, begin, level);
      case _ =>
        ScalarExact(v, s, begin, level);
    }
  }

  lemma StartsElement(v: Value, s: string, begin: nat)
    requires Valid(v) && Has(s, begin, Text(v))
    ensures |Text(v)| > 0 && begin < |s| && s[begin] == Text(v)[0]
  {
    TextStarts(v);
    HasChar(s, begin, Text(v), 0);
  }

  lemma ScalarExact(v: Value, s: string, begin: nat, level: nat)
    requires Valid(v) && !v.Array? && !v.Object? && level <= JSON_MAX_DEPTH
    requires Has(s, begin, Text(v)) && Delimited(s, begin + |Text(v)|)
    ensures InitOK(s, begin, level) && ElementEnd(s, begin, level) == At(begin + |Text(v)|)
  {
    ScalarText(v);
    hide Has, StringEnd, NumberEnd, Quoted, Text, Valid, ElementEnd;
    TextStarts(v);
    HasChar(s, begin, Text(v), 0);
    ElementCases(s, begin, level);
    if v.Number? {
      NumberExact(v, s, begin);
    } else if v.String? {
      StringExact(v.units, s, begin);
    }
  }

  lemma ElementCases(s: string, begin: nat, level: nat)
    requires InitOK(s, begin, level)
    ensures s[begin] == 'n' || s[begin] == 't' ==> ElementEnd(s, begin, level) == At(begin + 4)
    ensures s[begin] == 'f' ==> ElementEnd(s, begin, level) == At(begin + 5)
    ensures s[begin] == '-' || IsDigit(s[begin]) ==> ElementEnd(s, begin, level) == NumberEnd(s, begin)
    ensures s[begin] == '"' && StringEnd(s, begin).At? && !(StringEnd(s, begin).pos < |s| && s[StringEnd(s, begin).pos] == ':') ==>
      ElementEnd(s, begin, level) == StringEnd(s, begin)
  {
    hide StringEnd, NumberEnd, PairEnd, ArrayEnd, ObjectEnd;
  }

  lemma ScalarText(v: Value)
    requires Valid(v)
    ensures v.Null? ==> |Text(v)| == 4
    ensures v.Bool? ==> |Text(v)| == if v.b then 4 else 5
    ensures v.String? ==> ValidUnits(v.units) && Text(v) == Quoted(v.units)
  {
  }

  lemma ItemsUnfolded(items: Items)
    requires ValidItems(items) && items.Item?
    ensures Valid(items.head) && ValidItems(items.rest)
    ensures 1 + Depth(items.head) <= ItemsDepth(items) && ItemsDepth(items.rest) <= ItemsDepth(items)
    ensures ItemsDepth(items) == 1 + Depth(items.head) || ItemsDepth(items) == ItemsDepth(items.rest)
    ensures items.rest.NoItem? ==> ItemsDepth(items.rest) == 0 && ItemCount(items.rest) == 0
    ensures ItemCount(items) == 1 + ItemCount(items.rest)
  {
    hide Depth, Valid;
  }

  /** One turn of the loop over the items. */
  lemma ItemsEndStep(s: string, p: nat, level: nat, q: nat)
    requires InitOK(s, p, level + 1) && q < |s|
    ensures ElementEnd(s, p, level + 1) == Throws ==> ItemsEnd(s, p, level) == Throws
    ensures ElementEnd(s, p, level + 1) == At(q) && s[q] == ']' ==> ItemsEnd(s, p, level) == At(q + 1)
    ensures ElementEnd(s, p, level + 1) == At(q) && s[q] == ',' ==> ItemsEnd(s, p, level) == ItemsEnd(s, q + 1, level)
  {
    hide ElementEnd;
  }

  lemma MembersEndStep(s: string, p: nat, level: nat, q: nat)
    requires InitOK(s, p, level + 1) && q < |s|
    ensures PairEnd(s, p, level + 1) == Throws ==> MembersEnd(s, p, level) == Throws
    ensures PairEnd(s, p, level + 1) == At(q) && s[q] == '}' ==> MembersEnd(s, p, level) == At(q + 1)
    ensures PairEnd(s, p, level + 1) == At(q) && s[q] == ',' ==> MembersEnd(s, p, level) == MembersEnd(s, q + 1, level)
  {
    hide PairEnd;
  }

  lemma NoLevelLeft(s: string, p: nat, level: nat)
    requires level >= JSON_MAX_DEPTH
    ensures ItemsEnd(s, p, level) == Throws && MembersEnd(s, p, level) == Throws
  {
  }

  lemma ArrayText(items: Items)
    requires items.Item?
    ensures Text(Array(items)) == "[" + (ClosedItems(items))
  {
  }

  lemma ObjectText(members: Members)
    requires members.Member?
    ensures Text(Object(members)) == "{" + (ClosedMembers(members))
  {
  }

  /** The members of a non-empty array or object start right after the bracket or brace. */
  lemma InsideArray(items: Items, s: string, begin: nat)
    requires ValidItems(items) && items.Item? && Has(s, begin, Text(Array(items)))
    ensures |Text(Array(items))| == 1 + |ClosedItems(items)| && Has(s, begin + 1, ClosedItems(items))
    ensures begin + 1 < |s| && s[begin + 1] != ']' && s[begin + 1] != '}'
  {
    ArrayText(items);
    ItemsStart(items);
    hide Has, ClosedItems, Text;
    HasBoth(s, begin, "[", ClosedItems(items));
    HasChar(s, begin + 1, ClosedItems(items), 0);
  }

  lemma InsideObject(members: Members, s: string, begin: nat)
    requires members.Member? && Has(s, begin, Text(Object(members)))
    ensures |Text(Object(members))| == 1 + |ClosedMembers(members)| && Has(s, begin + 1, ClosedMembers(members))
    ensures begin + 1 < |s| && s[begin + 1] == '"'
  {
    ObjectText(members);
    MembersStart(members);
    hide Has, ClosedMembers, Text;
    HasBoth(s, begin, "{", ClosedMembers(members));
    HasChar(s, begin + 1, ClosedMembers(members), 0);
  }

  lemma {:induction false} ArrayExact(items: Items, s: string, begin: nat, level: nat)
    requires ValidItems(items) && level + ItemsDepth(items) <= JSON_MAX_DEPTH && begin < |s| && s[begin] == '['
    requires Has(s, begin, Text(Array(items)))
    ensures ArrayEnd(s, begin, level) == At(begin + |Text(Array(items))|)
    decreases items, 1
  {
    if items.Item? {
      hide Has, ClosedItems, ItemsEnd, Text, ValidItems;
      InsideArray(items, s, begin);
      ItemsExact(items, s, begin + 1, level);
    } else {
      HasChar(s, begin, "[]", 1);
    }
  }

  /** No value starts with a closing bracket. */
  lemma ItemsStart(items: Items)
    requires ValidItems(items) && items.Item?
    ensures |ClosedItems(items)| > 0 && ClosedItems(items)[0] != ']' && ClosedItems(items)[0] != '}'
  {
    TextStarts(items.head);
    if items.head.Number? {
      var v := items.head;
      assert v.negative ==> Text(v)[0] == '-';
      assert !v.negative ==> Text(v)[0] == v.whole[0];
    }
  }

  /** What follows an item: the closing bracket, or a comma and the other items. */
  function AfterItem(rest: Items): (t: string)
    ensures |t| > 0 && t[0] == (if rest.NoItem? then ']' else ',') && (rest.NoItem? ==> |t| == 1)
  {
    if rest.NoItem? then "]" else "," + (ClosedItems(rest))
  }

  lemma ItemsUnfold(items: Items)
    requires items.Item?
    ensures ClosedItems(items) == Text(items.head) + AfterItem(items.rest)
  {
    if items.rest.Item? {
      Regroup(Text(items.head), ItemsText(items.rest), "]");
    }
  }

  lemma Regroup(a: string, b: string, c: string)
    ensures (a + ("," + b)) + c == a + ("," + (b + c))
  {
  }

  lemma {:induction false} ItemsExact(items: Items, s: string, p: nat, level: nat)
    requires ValidItems(items) && items.Item? && level + ItemsDepth(items) <= JSON_MAX_DEPTH
    requires Has(s, p, ClosedItems(items))
    ensures ItemsEnd(s, p, level) == At(p + |ClosedItems(items)|)
    decreases items, 0
  {
    hide *;
    ItemsUnfolded(items);
    var q := p + |Text(items.head)|;
    FirstItem(items, s, p, q);
    ElementExact(items.head, s, p, level + 1);
    ItemsEndStep(s, p, level, q);
    if items.rest.Item? {
      ItemsExact(items.rest, s, q + 1, level);
    }
  }

  /** Where the first of several items ends and what comes next. */
  lemma FirstItem(items: Items, s: string, p: nat, q: nat)
    requires items.Item? && Has(s, p, ClosedItems(items)) && q == p + |Text(items.head)|
    ensures Has(s, p, Text(items.head)) && q < |s| && Delimited(s, q)
    ensures s[q] == if items.rest.NoItem? then ']' else ','
    ensures items.rest.NoItem? ==> p + |ClosedItems(items)| == q + 1
    ensures items.rest.Item? ==>
      Has(s, q + 1, ClosedItems(items.rest)) && p + |ClosedItems(items)| == q + 1 + |ClosedItems(items.rest)|
  {
    hide Text, Has, ClosedItems, AfterItem;
    var text, after := Text(items.head), AfterItem(items.rest);
    ItemsUnfold(items);
    HasBoth(s, p, text, after);
    HasChar(s, q, after, 0);
    if items.rest.Item? {
      AfterComma(items.rest, s, q);
    }
  }

  lemma AfterComma(rest: Items, s: string, p: nat)
    requires rest.Item? && Has(s, p, AfterItem(rest))
    ensures Has(s, p + 1, ClosedItems(rest)) && |AfterItem(rest)| == 1 + |ClosedItems(rest)|
  {
    hide Has;
    HasBoth(s, p, ",", ClosedItems(rest));
  }

  lemma {:induction false} ObjectExact(members: Members, s: string, begin: nat, level: nat)
    requires ValidMembers(members) && level + MembersDepth(members) <= JSON_MAX_DEPTH && begin < |s| && s[begin] == '{'
    requires Has(s, begin, Text(Object(members)))
    ensures ObjectEnd(s, begin, level) == At(begin + |Text(Object(members))|)
    decreases members, 1
  {
    if members.Member? {
      hide Has, ClosedMembers, MembersEnd, Text, ValidMembers;
      InsideObject(members, s, begin);
      MembersExact(members, s, begin + 1, level);
    } else {
      HasChar(s, begin, "{}", 1);
    }
  }

  lemma MembersStart(members: Members)
    requires members.Member?
    ensures |ClosedMembers(members)| > 0 && ClosedMembers(members)[0] == '"'
  {
    QuotedStart(members.name);
    assert MemberText(members.name, members.value)[0] == '"';
  }

  lemma PairStep(s: string, p: nat, level: nat, q: nat)
    requires p < |s| && s[p] == '"' && StringEnd(s, p) == At(q) && q < |s| && s[q] == ':' && InitOK(s, q + 1, level + 1)
    ensures GetType(s, p) == Is(NameValuePairType) && PairEnd(s, p, level) == ElementEnd(s, q + 1, level + 1)
  {
    hide StringEnd, ElementEnd;
  }

  /** A member: its name, the colon, its value. */
  lemma {:induction false} MemberExact(name: seq<Unit>, value: Value, s: string, p: nat, level: nat)
    requires ValidUnits(name) && Valid(value) && level + 1 + Depth(value) <= JSON_MAX_DEPTH
    requires Has(s, p, MemberText(name, value)) && Delimited(s, p + |MemberText(name, value)|)
    ensures InitOK(s, p, level) && GetType(s, p) == Is(NameValuePairType)
    ensures PairEnd(s, p, level) == At(p + |MemberText(name, value)|)
    decreases value, 1
  {
    hide ElementEnd, PairEnd, GetType, StringEnd, SlowEnd, Text, Has, Quoted, ValidUnits, Delimited;
    var rest := ":" + Text(value);
    QuotedStart(name);
    HasBoth(s, p, Quoted(name), rest);
    HasChar(s, p, Quoted(name), 0);
    StringExact(name, s, p);
    var q := p + |Quoted(name)|;
    HasBoth(s, q, ":", Text(value));
    HasChar(s, q, ":", 0);
    ElementExact(value, s, q + 1, level + 1);
    PairStep(s, p, level, q);
  }

  lemma QuotedStart(units: seq<Unit>)
    ensures |Quoted(units)| > 1 && Quoted(units)[0] == '"'
  {
  }

  function AfterMember(rest: Members): (t: string)
    ensures |t| > 0 && t[0] == (if rest.NoMember? then '}' else ',') && (rest.NoMember? ==> |t| == 1)
  {
    if rest.NoMember? then "}" else "," + (ClosedMembers(rest))
  }

  lemma MembersUnfold(members: Members)
    requires members.Member?
    ensures ClosedMembers(members) == MemberText(members.name, members.value) + AfterMember(members.rest)
  {
    if members.rest.Member? {
      Regroup(MemberText(members.name, members.value), MembersText(members.rest), "}");
    }
  }

  /** Where the first of several members ends and what comes next. */
  lemma FirstMember(members: Members, s: string, p: nat, q: nat)
    requires members.Member? && Has(s, p, ClosedMembers(members))
    requires q == p + |MemberText(members.name, members.value)|
    ensures Has(s, p, MemberText(members.name, members.value)) && q < |s| && Delimited(s, q)
    ensures s[q] == if members.rest.NoMember? then '}' else ','
    ensures members.rest.NoMember? ==> p + |ClosedMembers(members)| == q + 1
    ensures members.rest.Member? ==>
      Has(s, q + 1, ClosedMembers(members.rest)) && p + |ClosedMembers(members)| == q + 1 + |ClosedMembers(members.rest)|
  {
    hide MemberText, Has, ClosedMembers, AfterMember;
    var text, after := MemberText(members.name, members.value), AfterMember(members.rest);
    MembersUnfold(members);
    HasBoth(s, p, text, after);
    HasChar(s, q, after, 0);
    if members.rest.Member? {
      AfterMemberComma(members.rest, s, q);
    }
  }

  lemma AfterMemberComma(rest: Members, s: string, p: nat)
    requires rest.Member? && Has(s, p, AfterMember(rest))
    ensures Has(s, p + 1, ClosedMembers(rest)) && |AfterMember(rest)| == 1 + |ClosedMembers(rest)|
  {
    hide Has;
    HasBoth(s, p, ",", ClosedMembers(rest));
  }

  lemma {:induction false} MembersExact(members: Members, s: string, p: nat, level: nat)
    requires ValidMembers(members) && members.Member? && level + MembersDepth(members) <= JSON_MAX_DEPTH
    requires Has(s, p, ClosedMembers(members))
    ensures MembersEnd(s, p, level) == At(p + |ClosedMembers(members)|)
    decreases members, 0
  {
    hide PairEnd, MembersEnd, MemberText, ClosedMembers, Has, Valid, Delimited, GetType;
    var q := p + |MemberText(members.name, members.value)|;
    FirstMember(members, s, p, q);
    MemberExact(members.name, members.value, s, p, level + 1);
    MembersEndStep(s, p, level, q);
    if members.rest.Member? {
      MembersExact(members.rest, s, q + 1, level);
    }
  }

  // ---------------------------------------------------------------- the depth limit

  /** A valid value that nests deeper than the limit is refused. */
  lemma {:induction false} ElementTooDeep(v: Value, s: string, begin: nat, level: nat)
    requires Valid(v) && level <= JSON_MAX_DEPTH < level + Depth(v)
    requires Has(s, begin, Text(v)) && Delimited(s, begin + |Text(v)|)
    ensures InitOK(s, begin, level) && ElementEnd(s, begin, level) == Throws
    decreases v, 0
  {
    TextStarts(v);
    hide Has, StringEnd, NumberEnd, Quoted, ItemsEnd, MembersEnd;
    HasChar(s, begin, Text(v), 0);
    match v
    case Array(items) =>
      InsideArray(items, s, begin);
      ItemsTooDeep(items, s, begin + 1, level);
    case Object(members) =>
      InsideObject(members, s, begin);
      MembersTooDeep(members, s, begin + 1, level);
    case _ =>
  }

  lemma {:induction false} ItemsTooDeep(items: Items, s: string, p: nat, level: nat)
    requires ValidItems(items) && items.Item? && level <= JSON_MAX_DEPTH < level + ItemsDepth(items)
    requires Has(s, p, ClosedItems(items))
    ensures ItemsEnd(s, p, level) == Throws
    decreases items, 0
  {
    hide *;
    ItemsUnfolded(items);
    var q := p + |Text(items.head)|;
    FirstItem(items, s, p, q);
    if level == JSON_MAX_DEPTH {
      NoLevelLeft(s, p, level);
    } else if level + 1 + Depth(items.head) <= JSON_MAX_DEPTH {
      ElementExact(items.head, s, p, level + 1);
      ItemsTooDeep(items.rest, s, q + 1, level);
      ItemsEndStep(s, p, level, q);
    } else {
      ElementTooDeep(items.head, s, p, level + 1);
      ItemsEndStep(s, p, level, q);
    }
  }

  lemma {:induction false} MembersTooDeep(members: Members, s: string, p: nat, level: nat)
    requires ValidMembers(members) && members.Member? && level <= JSON_MAX_DEPTH < level + MembersDepth(members)
    requires Has(s, p, ClosedMembers(members))
    ensures MembersEnd(s, p, level) == Throws
    decreases members, 0
  {
    hide PairEnd, MembersEnd, MemberText, ClosedMembers, Has, Valid, Delimited, GetType;
    var q := p + |MemberText(members.name, members.value)|;
    FirstMember(members, s, p, q);
    if level == JSON_MAX_DEPTH {
      NoLevelLeft(s, p, level);
    } else if level + 2 + Depth(members.value) <= JSON_MAX_DEPTH {
      MemberExact(members.name, members.value, s, p, level + 1);
      MembersTooDeep(members.rest, s, q + 1, level);
      MembersEndStep(s, p, level, q);
    } else {
      MemberTooDeep(members.name, members.value, s, p, level + 1);
      MembersEndStep(s, p, level, q);
    }
  }

  lemma {:induction false} MemberTooDeep(name: seq<Unit>, value: Value, s: string, p: nat, level: nat)
    requires ValidUnits(name) && Valid(value) && level <= JSON_MAX_DEPTH < level + 1 + Depth(value)
    requires Has(s, p, MemberText(name, value)) && Delimited(s, p + |MemberText(name, value)|)
    ensures InitOK(s, p, level) && GetType(s, p) == Is(NameValuePairType) && PairEnd(s, p, level) == Throws
    decreases value, 1
  {
    hide ElementEnd, StringEnd, SlowEnd, Text, Has, Quoted, ValidUnits, Delimited;
    QuotedStart(name);
    HasBoth(s, p, Quoted(name), ":" + Text(value));
    HasChar(s, p, Quoted(name), 0);
    StringExact(name, s, p);
    var q := p + |Quoted(name)|;
    HasBoth(s, q, ":", Text(value));
    HasChar(s, q, ":", 0);
    if level < JSON_MAX_DEPTH {
      ElementTooDeep(value, s, q + 1, level + 1);
    }
  }

  // ---------------------------------------------------------------- size

  lemma CountStep(s: string, p: nat, level: nat, q: nat)
    requires InitOK(s, p, level) && ElementEnd(s, p, level) == At(q) && q < |s|
    ensures s[q] != ',' ==> CountFrom(s, MoveTo(p), level) == Size(1)
    ensures s[q] == ',' && InitOK(s, q + 1, level) && CountFrom(s, MoveTo(q + 1), level).Size? ==>
      CountFrom(s, MoveTo(p), level) == Size(1 + CountFrom(s, MoveTo(q + 1), level).count)
    ensures s[q] == ',' && InitOK(s, q + 1, level) && CountFrom(s, MoveTo(q + 1), level) == SizeThrows ==>
      CountFrom(s, MoveTo(p), level) == SizeThrows
  {
    hide ElementEnd;
  }

  lemma CountThrows(s: string, p: nat, level: nat)
    requires InitOK(s, p, level) && ElementEnd(s, p, level) == Throws
    ensures CountFrom(s, MoveTo(p), level) == SizeThrows
  {
    hide ElementEnd;
  }

  /** Iterating over the members of a valid array visits each of them once. */
  lemma {:induction false} ItemsCounted(items: Items, s: string, p: nat, level: nat)
    requires ValidItems(items) && items.Item? && level + ItemsDepth(items) <= JSON_MAX_DEPTH
    requires Has(s, p, ClosedItems(items))
    ensures InitOK(s, p, level + 1) && CountFrom(s, MoveTo(p), level + 1) == Size(ItemCount(items))
    decreases items
  {
    hide *;
    ItemsUnfolded(items);
    var q := p + |Text(items.head)|;
    FirstItem(items, s, p, q);
    ElementExact(items.head, s, p, level + 1);
    if items.rest.Item? {
      ItemsCounted(items.rest, s, q + 1, level);
    }
    CountStep(s, p, level + 1, q);
  }

  lemma {:induction false} MembersCounted(members: Members, s: string, p: nat, level: nat)
    requires ValidMembers(members) && members.Member? && level + MembersDepth(members) <= JSON_MAX_DEPTH
    requires Has(s, p, ClosedMembers(members))
    ensures InitOK(s, p, level + 1) && CountFrom(s, MoveTo(p), level + 1) == Size(MemberCount(members))
    decreases members
  {
    hide PairEnd, MemberText, ClosedMembers, Has, GetType, CountFrom, Valid, Delimited;
    var q := p + |MemberText(members.name, members.value)|;
    FirstMember(members, s, p, q);
    MemberExact(members.name, members.value, s, p, level + 1);
    if members.rest.Member? {
      MembersCounted(members.rest, s, q + 1, level);
    }
    CountStep(s, p, level + 1, q);
  }

  /** Iterating over members that nest too deeply throws. */
  lemma {:induction false} ItemsUncounted(items: Items, s: string, p: nat, level: nat)
    requires ValidItems(items) && items.Item? && level < JSON_MAX_DEPTH < level + ItemsDepth(items)
    requires Has(s, p, ClosedItems(items))
    ensures InitOK(s, p, level + 1) && CountFrom(s, MoveTo(p), level + 1) == SizeThrows
    decreases items
  {
    hide *;
    ItemsUnfolded(items);
    var q := p + |Text(items.head)|;
    FirstItem(items, s, p, q);
    if level + 1 + Depth(items.head) <= JSON_MAX_DEPTH {
      ElementExact(items.head, s, p, level + 1);
      ItemsUncounted(items.rest, s, q + 1, level);
      CountStep(s, p, level + 1, q);
    } else {
      ElementTooDeep(items.head, s, p, level + 1);
      CountThrows(s, p, level + 1);
    }
  }

  lemma {:induction false} MembersUncounted(members: Members, s: string, p: nat, level: nat)
    requires ValidMembers(members) && members.Member? && level < JSON_MAX_DEPTH < level + MembersDepth(members)
    requires Has(s, p, ClosedMembers(members))
    ensures InitOK(s, p, level + 1) && CountFrom(s, MoveTo(p), level + 1) == SizeThrows
    decreases members
  {
    hide PairEnd, MemberText, ClosedMembers, Has, GetType, CountFrom, Valid, Delimited;
    var q := p + |MemberText(members.name, members.value)|;
    FirstMember(members, s, p, q);
    if level + 2 + Depth(members.value) <= JSON_MAX_DEPTH {
      MemberExact(members.name, members.value, s, p, level + 1);
      MembersUncounted(members.rest, s, q + 1, level);
      CountStep(s, p, level + 1, q);
    } else {
      MemberTooDeep(members.name, members.value, s, p, level + 1);
      CountThrows(s, p, level + 1);
    }
  }

  function MembersOf(v: Value): nat {
    match v
    case Array(items) => ItemCount(items)
    case Object(members) => MemberCount(members)
    case _ => 0
  }

  /** size() is the number of members if and only if the value is an array or object and its members, or for an empty
      one the end marker, are within the depth limit; otherwise it throws. */
  lemma SizeExact(v: Value, s: string, begin: nat, level: nat)
    requires Valid(v) && level <= JSON_MAX_DEPTH
    requires Has(s, begin, Text(v)) && Delimited(s, begin + |Text(v)|)
    ensures begin < |s|
    ensures SizeOf(s, begin, level) ==
      if (v.Array? || v.Object?) && level + Max(1, Depth(v)) <= JSON_MAX_DEPTH then Size(MembersOf(v)) else SizeThrows
  {
    TextStarts(v);
    HasChar(s, begin, Text(v), 0);
    hide Has, StringEnd, NumberEnd, Quoted, ElementEnd, CountFrom;
    EndAndError(s, level + 1);
    match v
    case Number(_, _, _, _) =>
      NumberExact(v, s, begin);
    case Array(items) =>
      ArraySize(items, s, begin, level);
    case Object(members) =>
      ObjectSize(members, s, begin, level);
    case _ =>
  }

  lemma EndAndError(s: string, level: nat)
    ensures CountFrom(s, MoveEnd, level) == Size(0) && CountFrom(s, MoveThrows, level) == SizeThrows
  {
  }

  lemma SizeCases(s: string, begin: nat, level: nat)
    requires begin + 1 < |s| && (s[begin] == '[' || s[begin] == '{')
    ensures s[begin + 1] == ']' || s[begin + 1] == '}' ==>
      SizeOf(s, begin, level) == if level + 1 > JSON_MAX_DEPTH then SizeThrows else Size(0)
    ensures s[begin + 1] != ']' && s[begin + 1] != '}' && level + 1 > JSON_MAX_DEPTH ==> SizeOf(s, begin, level) == SizeThrows
    ensures s[begin + 1] != ']' && s[begin + 1] != '}' && level + 1 <= JSON_MAX_DEPTH ==>
      InitOK(s, begin + 1, level + 1) && SizeOf(s, begin, level) == CountFrom(s, MoveTo(begin + 1), level + 1)
  {
    hide Next;
  }

  lemma ArraySize(items: Items, s: string, begin: nat, level: nat)
    requires ValidItems(items) && level <= JSON_MAX_DEPTH && begin < |s| && s[begin] == '['
    requires Has(s, begin, Text(Array(items)))
    ensures SizeOf(s, begin, level) ==
      if level + Max(1, ItemsDepth(items)) <= JSON_MAX_DEPTH then Size(ItemCount(items)) else SizeThrows
  {
    if items.Item? {
      hide Has, SizeOf, CountFrom, ClosedItems, Text, ValidItems, ItemsDepth, ItemCount;
      ItemsUnfolded(items);
      InsideArray(items, s, begin);
      SizeCases(s, begin, level);
      if level + ItemsDepth(items) <= JSON_MAX_DEPTH {
        ItemsCounted(items, s, begin + 1, level);
      } else if level < JSON_MAX_DEPTH {
        ItemsUncounted(items, s, begin + 1, level);
      }
    } else {
      HasChar(s, begin, "[]", 1);
      hide Has, SizeOf, Text;
      SizeCases(s, begin, level);
    }
  }

  lemma ObjectSize(members: Members, s: string, begin: nat, level: nat)
    requires ValidMembers(members) && level <= JSON_MAX_DEPTH && begin < |s| && s[begin] == '{'
    requires Has(s, begin, Text(Object(members)))
    ensures SizeOf(s, begin, level) ==
      if level + Max(1, MembersDepth(members)) <= JSON_MAX_DEPTH then Size(MemberCount(members)) else SizeThrows
  {
    if members.Member? {
      hide Has, SizeOf, CountFrom, ClosedMembers, Text, ValidMembers;
      InsideObject(members, s, begin);
      SizeCases(s, begin, level);
      if level + MembersDepth(members) <= JSON_MAX_DEPTH {
        MembersCounted(members, s, begin + 1, level);
      } else if level < JSON_MAX_DEPTH {
        MembersUncounted(members, s, begin + 1, level);
      }
    } else {
      HasChar(s, begin, "{}", 1);
      hide Has, SizeOf, Text;
      SizeCases(s, begin, level);
    }
  }

  /** An empty array at the deepest level can be skipped, but asking for its size throws. */
  lemma EmptyAtTheLimit()
    ensures ElementEnd("[]", 0, 100) == At(2) && SizeOf("[]", 0, 100) == SizeThrows && !InitOK("[]", 0, 101)
  {
    var v := Array(NoItem);
    assert Has("[]", 0, Text(v));
    ElementExact(v, "[]", 0, JSON_MAX_DEPTH);
    SizeExact(v, "[]", 0, JSON_MAX_DEPTH);
  }
}
