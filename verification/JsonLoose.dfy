/** What the JSON reader accepts on any text at all: a grammar that is looser than JSON, given on strings, and the
    proof that the reader stops exactly where this grammar does. */
module JsonLoose {
  import opened Decimal
  import opened Json
  import opened JsonSkip
  import opened JsonExact

  // ---------------------------------------------------------------- the grammar

  /** The rest of a number: 1 in the whole part, 2 in the fraction, 3 after the exponent's letter, 4 in the exponent. */
  predicate NumberRest(t: string, stage: nat)
    decreases |t|
  {
    t == ""
    || (IsDigit(t[0]) && NumberRest(t[1..], if stage < 3 then stage else 4))
    || (t[0] == '.' && stage == 1 && NumberRest(t[1..], 2))
    || ((t[0] == 'e' || t[0] == 'E') && stage < 3 && NumberRest(t[1..], 3))
    || (t[0] == '-' && stage < 4 && NumberRest(t[1..], 4))
  }

  predicate LooseNumber(t: string) {
    t != "" && (t[0] == '-' || IsDigit(t[0])) && NumberRest(t[1..], 1)
  }

  /** Without a quote, and not ending in a backslash. */
  predicate PlainContent(u: string) {
    '"' !in u && (u == "" || u[|u| - 1] != '\\')
  }

  /** Escapes are a backslash and one character, or `\u` and any four. */
  predicate EscapedContent(u: string)
    decreases |u|
  {
    if u == "" then true
    else if u[0] != '\\' then u[0] != '"' && EscapedContent(u[1..])
    else if |u| == 1 then false
    else if u[1] != 'u' then EscapedContent(u[2..])
    else |u| >= 6 && EscapedContent(u[6..])
  }

  /** The first quote of `v` stands at `i`, behind a backslash. */
  predicate QuoteEscaped(v: string, i: nat) {
    0 < i < |v| && v[i] == '"' && v[i - 1] == '\\' && '"' !in v[..i]
  }

  ghost predicate LooseString(t: string) {
    |t| >= 2 && t[0] == '"' && t[|t| - 1] == '"'
    && (PlainContent(t[1..|t| - 1]) || (EscapedContent(t[1..|t| - 1]) && exists i: nat :: QuoteEscaped(t[1..], i)))
  }

  /** An element at nesting level `level`. Literals are told by their first character only. */
  ghost predicate LooseElement(t: string, level: nat)
    decreases |t|, 2
  {
    && t != "" && level <= JSON_MAX_DEPTH
    && if t[0] == '[' then t == "[]" || (|t| >= 2 && t[|t| - 1] == ']' && SomeItems(t[1..|t| - 1], level + 1))
       else if t[0] == '{' then t == "{}" || (|t| >= 2 && t[|t| - 1] == '}' && SomeMembers(t[1..|t| - 1], level + 1))
       else if t[0] == 't' || t[0] == 'n' then |t| == 4
       else if t[0] == 'f' then |t| == 5
       else if t[0] == '"' then LooseString(t) || LoosePair(t, level)
       else LooseNumber(t)
  }

  ghost predicate LoosePair(t: string, level: nat)
    decreases |t|, 1
  {
    level <= JSON_MAX_DEPTH && exists k: nat :: NameOf(t, level, k)
  }

  ghost predicate NameOf(t: string, level: nat, k: nat)
    decreases |t|, 0
  {
    0 < k < |t| && LooseString(t[..k]) && t[k] == ':' && LooseElement(t[k + 1..], level + 1)
  }

  ghost predicate SomeItems(u: string, level: nat)
    decreases |u|, 5
  {
    exists n: nat :: LooseItems(u, level, n)
  }

  ghost predicate SomeMembers(u: string, level: nat)
    decreases |u|, 5
  {
    exists n: nat :: LooseMembers(u, level, n)
  }

  /** `n` elements, separated by commas. */
  ghost predicate LooseItems(u: string, level: nat, n: nat)
    decreases |u|, 4
  {
    n > 0 && exists k: nat :: ItemsFrom(u, level, n, k)
  }

  ghost predicate ItemsFrom(u: string, level: nat, n: nat, k: nat)
    decreases |u|, 3
  {
    && 0 < n && 0 < k <= |u| && LooseElement(u[..k], level)
    && if k == |u| then n == 1 else u[k] == ',' && LooseItems(u[k + 1..], level, n - 1)
  }

  /** `n` pairs of name and value, separated by commas. */
  ghost predicate LooseMembers(u: string, level: nat, n: nat)
    decreases |u|, 4
  {
    n > 0 && exists k: nat :: MembersFrom(u, level, n, k)
  }

  ghost predicate MembersFrom(u: string, level: nat, n: nat, k: nat)
    decreases |u|, 3
  {
    && 0 < n && 0 < k <= |u| && LoosePair(u[..k], level)
    && if k == |u| then n == 1 else u[k] == ',' && LooseMembers(u[k + 1..], level, n - 1)
  }

  /** Nothing that would continue a number or make a name of a string. */
  predicate Ends(s: string, q: nat) {
    q == |s| || (q < |s| && !IsDigit(s[q]) && s[q] !in ".eE-:")
  }

  // ---------------------------------------------------------------- numbers

  /** Where a number ends, from each stage on. */
  function NumberFrom(s: string, p: nat, stage: nat): nat
    requires p <= |s| && 1 <= stage <= 4
    decreases 4 - stage
  {
    if stage == 1 then NumberFrom(s, PastChar(s, DigitsEnd(s, p), '.', '.'), 2)
    else if stage == 2 then NumberFrom(s, PastChar(s, DigitsEnd(s, p), 'e', 'E'), 3)
    else if stage == 3 then NumberFrom(s, PastChar(s, p, '-', '-'), 4)
    else DigitsEnd(s, p)
  }

  lemma NumberEndFrom(s: string, begin: nat)
    requires begin < |s|
    ensures NumberEnd(s, begin) == At(NumberFrom(s, PastChar(s, begin, '-', '-'), 1))
  {
  }

  lemma {:induction false} NumberFromBounds(s: string, p: nat, stage: nat)
    requires p <= |s| && 1 <= stage <= 4
    ensures p <= NumberFrom(s, p, stage) <= |s|
    decreases 4 - stage
  {
    if stage == 1 {
      NumberFromBounds(s, PastChar(s, DigitsEnd(s, p), '.', '.'), 2);
    } else if stage == 2 {
      NumberFromBounds(s, PastChar(s, DigitsEnd(s, p), 'e', 'E'), 3);
    } else if stage == 3 {
      NumberFromBounds(s, PastChar(s, p, '-', '-'), 4);
    }
  }

  /** One character of a number, and what may follow it. */
  lemma NumberFromStep(s: string, p: nat, stage: nat)
    requires p < |s| && 1 <= stage <= 4
    ensures IsDigit(s[p]) ==> NumberFrom(s, p, stage) == NumberFrom(s, p + 1, if stage < 3 then stage else 4)
    ensures s[p] == '.' && stage == 1 ==> NumberFrom(s, p, stage) == NumberFrom(s, p + 1, 2)
    ensures (s[p] == 'e' || s[p] == 'E') && stage < 3 ==> NumberFrom(s, p, stage) == NumberFrom(s, p + 1, 3)
    ensures s[p] == '-' && stage < 4 ==> NumberFrom(s, p, stage) == NumberFrom(s, p + 1, 4)
    ensures (!IsDigit(s[p]) && !(s[p] == '.' && stage == 1) && !((s[p] == 'e' || s[p] == 'E') && stage < 3)
             && !(s[p] == '-' && stage < 4)) ==> NumberFrom(s, p, stage) == p
  {
    assert IsDigit(s[p]) ==> DigitsEnd(s, p) == DigitsEnd(s, p + 1);
    assert !IsDigit(s[p]) ==> DigitsEnd(s, p) == p;
  }

  lemma {:induction false} NumberIsLoose(s: string, p: nat, stage: nat)
    requires p <= |s| && 1 <= stage <= 4
    ensures p <= NumberFrom(s, p, stage) <= |s| && NumberRest(s[p..NumberFrom(s, p, stage)], stage)
    decreases |s| - p
  {
    hide NumberFrom;
    NumberFromBounds(s, p, stage);
    var q := NumberFrom(s, p, stage);
    if p < |s| && p < q {
      NumberFromStep(s, p, stage);
      var next := if IsDigit(s[p]) then if stage < 3 then stage else 4
                  else if s[p] == '.' then 2 else if s[p] == 'e' || s[p] == 'E' then 3 else 4;
      NumberIsLoose(s, p + 1, next);
      assert s[p..q][1..] == s[p + 1..q];
    }
  }

  lemma {:induction false} LooseNumberEnds(s: string, p: nat, q: nat, stage: nat)
    requires p <= q <= |s| && 1 <= stage <= 4 && NumberRest(s[p..q], stage) && Ends(s, q)
    ensures NumberFrom(s, p, stage) == q
    decreases q - p
  {
    hide NumberFrom;
    if p == q {
      if p < |s| {
        NumberFromStep(s, p, stage);
      } else {
        NumberFromBounds(s, p, stage);
      }
    } else {
      NumberFromStep(s, p, stage);
      assert s[p..q][1..] == s[p + 1..q];
      var next := if IsDigit(s[p]) then if stage < 3 then stage else 4
                  else if s[p] == '.' then 2 else if s[p] == 'e' || s[p] == 'E' then 3 else 4;
      LooseNumberEnds(s, p + 1, q, next);
    }
  }

  // ---------------------------------------------------------------- strings

  lemma {:induction false} FirstQuoteAt(s: string, p: nat, q: nat)
    requires p <= q < |s| && '"' !in s[p..q] && s[q] == '"'
    ensures FindQuote(s, p) == q
    decreases q - p
  {
    if p < q {
      assert s[p] == s[p..q][0];
      assert s[p + 1..q] == s[p..q][1..];
      FirstQuoteAt(s, p + 1, q);
    }
  }

  lemma {:induction false} NoQuoteBefore(s: string, p: nat)
    requires p <= |s|
    ensures '"' !in s[p..FindQuote(s, p)]
    decreases |s| - p
  {
    var q := FindQuote(s, p);
    if p < q {
      NoQuoteBefore(s, p + 1);
      assert s[p..q] == [s[p]] + s[p + 1..q];
    }
  }

  lemma {:induction false} SlowIsEscaped(s: string, p: nat)
    requires p <= |s| && SlowEnd(s, p).At?
    ensures var q := SlowEnd(s, p).pos; s[q - 1] == '"' && EscapedContent(s[p..q - 1])
    decreases |s| - p
  {
    var q := SlowEnd(s, p).pos;
    var u := s[p..q - 1];
    if s[p] == '"' {
    } else if s[p] != '\\' {
      SlowIsEscaped(s, p + 1);
      assert u[1..] == s[p + 1..q - 1];
    } else if s[p + 1] != 'u' {
      SlowIsEscaped(s, p + 2);
      assert u[2..] == s[p + 2..q - 1];
    } else {
      SlowIsEscaped(s, p + 6);
      assert u[6..] == s[p + 6..q - 1];
    }
  }

  lemma {:induction false} EscapedIsSlow(s: string, p: nat, q: nat)
    requires p < q <= |s| && s[q - 1] == '"' && EscapedContent(s[p..q - 1])
    ensures SlowEnd(s, p) == At(q)
    decreases q - p
  {
    var u := s[p..q - 1];
    if u == "" {
    } else if s[p] != '\\' {
      assert u[1..] == s[p + 1..q - 1];
      EscapedIsSlow(s, p + 1, q);
    } else if s[p + 1] != 'u' {
      assert u[2..] == s[p + 2..q - 1];
      EscapedIsSlow(s, p + 2, q);
    } else {
      assert u[6..] == s[p + 6..q - 1];
      EscapedIsSlow(s, p + 6, q);
    }
  }

  /** A text without its first and last character. */
  lemma Inside(s: string, p: nat, q: nat)
    requires p + 2 <= q <= |s|
    ensures s[p..q][1..|s[p..q]| - 1] == s[p + 1..q - 1]
  {
    var a, b := s[p..q][1..|s[p..q]| - 1], s[p + 1..q - 1];
    forall i | 0 <= i < |a|
      ensures a[i] == b[i]
    {
    }
  }

  lemma StringIsLoose(s: string, begin: nat)
    requires StringEnd(s, begin).At?
    ensures LooseString(s[begin..StringEnd(s, begin).pos])
  {
    hide EscapedContent, SlowEnd, FindQuote;
    var q := StringEnd(s, begin).pos;
    var t, closing := s[begin..q], FindQuote(s, begin + 1);
    NoQuoteBefore(s, begin + 1);
    if closing < |s| && s[closing - 1] != '\\' {
      Inside(s, begin, q);
    } else {
      SlowIsEscaped(s, begin + 1);
      Inside(s, begin, q);
      QuoteWithin(s, begin + 1, q);
      var v, i := t[1..], closing - begin - 1;
      assert v[..i] == s[begin + 1..closing];
      assert QuoteEscaped(v, i);
    }
  }

  lemma {:induction false} QuoteWithin(s: string, p: nat, q: nat)
    requires p < q <= |s| && s[q - 1] == '"'
    ensures FindQuote(s, p) < q
    decreases q - p
  {
    if s[p] != '"' {
      QuoteWithin(s, p + 1, q);
    }
  }

  lemma LooseStringEnds(s: string, begin: nat, q: nat)
    requires begin <= q <= |s| && LooseString(s[begin..q])
    ensures StringEnd(s, begin) == At(q)
  {
    hide EscapedContent, SlowEnd, FindQuote;
    var t := s[begin..q];
    Inside(s, begin, q);
    if PlainContent(t[1..|t| - 1]) {
      FirstQuoteAt(s, begin + 1, q - 1);
    } else {
      var i: nat :| QuoteEscaped(t[1..], i);
      assert t[1..][..i] == s[begin + 1..begin + 1 + i];
      FirstQuoteAt(s, begin + 1, begin + 1 + i);
      EscapedIsSlow(s, begin + 1, q);
    }
  }

  // ---------------------------------------------------------------- elements: whatever ends is in the grammar

  /** Where an element ends within the text, the characters in between are one of the grammar's. */
  lemma {:induction false} ElementIsLoose(s: string, begin: nat, level: nat, q: nat)
    requires InitOK(s, begin, level) && ElementEnd(s, begin, level) == At(q) && q <= |s|
    ensures LooseElement(s[begin..q], level)
    decreases |s| - begin, 3
  {
    hide StringEnd, NumberEnd, ItemsEnd, MembersEnd, PairEnd, LooseItems, LooseMembers, LooseString, LooseNumber, LoosePair,
         SomeItems, SomeMembers;
    var t := s[begin..q];
    match GetType(s, begin)
    case Is(NumberType) =>
      WholeNumberIsLoose(s, begin, q);
    case Is(StringType) =>
      StringIsLoose(s, begin);
    case Is(NameValuePairType) =>
      PairIsLoose(s, begin, level, q);
    case Is(ArrayType) =>
      if s[begin + 1] == ']' {
        assert t == "[]";
      } else {
        ItemsAreLoose(s, begin + 1, level, q);
        Inside(s, begin, q);
      }
    case Is(ObjectType) =>
      if s[begin + 1] == '}' {
        assert t == "{}";
      } else {
        MembersAreLoose(s, begin + 1, level, q);
        Inside(s, begin, q);
      }
    case _ =>
  }

  lemma WholeNumberIsLoose(s: string, begin: nat, q: nat)
    requires begin < |s| && (s[begin] == '-' || IsDigit(s[begin])) && NumberEnd(s, begin) == At(q)
    ensures begin < q <= |s| && LooseNumber(s[begin..q])
  {
    hide NumberFrom, NumberEnd, NumberRest;
    NumberEndFrom(s, begin);
    NumberIsLoose(s, begin + 1, 1);
    if s[begin] != '-' {
      NumberFromStep(s, begin, 1);
    }
    assert s[begin..q][1..] == s[begin + 1..q];
  }

  lemma {:induction false} PairIsLoose(s: string, begin: nat, level: nat, q: nat)
    requires InitOK(s, begin, level) && PairEnd(s, begin, level) == At(q) && q <= |s|
    ensures LoosePair(s[begin..q], level)
    decreases |s| - begin, 2
  {
    hide StringEnd, ElementEnd, LooseString, LooseElement;
    var t, pos := s[begin..q], StringEnd(s, begin).pos;
    StringIsLoose(s, begin);
    ElementIsLoose(s, pos + 1, level + 1, q);
    var k := pos - begin;
    assert t[..k] == s[begin..pos] && t[k] == ':' && t[k + 1..] == s[pos + 1..q];
    assert NameOf(t, level, k);
  }

  lemma {:induction false} ItemsAreLoose(s: string, p: nat, level: nat, q: nat)
    requires ItemsEnd(s, p, level) == At(q)
    ensures p < q <= |s| && s[q - 1] == ']' && SomeItems(s[p..q - 1], level + 1)
    decreases |s| - p, 4
  {
    hide ElementEnd, LooseElement;
    var pos := ElementEnd(s, p, level + 1).pos;
    ElementIsLoose(s, p, level + 1, pos);
    var k := pos - p;
    if s[pos] == ',' {
      ItemsAreLoose(s, pos + 1, level, q);
      var u := s[p..q - 1];
      assert u[..k] == s[p..pos] && u[k] == ',' && u[k + 1..] == s[pos + 1..q - 1];
      var n: nat :| LooseItems(s[pos + 1..q - 1], level + 1, n);
      assert ItemsFrom(u, level + 1, n + 1, k);
      assert LooseItems(u, level + 1, n + 1);
    } else {
      var u := s[p..q - 1];
      assert u[..k] == s[p..pos] && k == |u|;
      assert ItemsFrom(u, level + 1, 1, k);
      assert LooseItems(u, level + 1, 1);
    }
  }

  lemma {:induction false} MembersAreLoose(s: string, p: nat, level: nat, q: nat)
    requires MembersEnd(s, p, level) == At(q)
    ensures p < q <= |s| && s[q - 1] == '}' && SomeMembers(s[p..q - 1], level + 1)
    decreases |s| - p, 4
  {
    hide PairEnd, LoosePair;
    var pos := PairEnd(s, p, level + 1).pos;
    PairIsLoose(s, p, level + 1, pos);
    var k := pos - p;
    if s[pos] == ',' {
      MembersAreLoose(s, pos + 1, level, q);
      var u := s[p..q - 1];
      assert u[..k] == s[p..pos] && u[k] == ',' && u[k + 1..] == s[pos + 1..q - 1];
      var n: nat :| LooseMembers(s[pos + 1..q - 1], level + 1, n);
      assert MembersFrom(u, level + 1, n + 1, k);
      assert LooseMembers(u, level + 1, n + 1);
    } else {
      var u := s[p..q - 1];
      assert u[..k] == s[p..pos] && k == |u|;
      assert MembersFrom(u, level + 1, 1, k);
      assert LooseMembers(u, level + 1, 1);
    }
  }

  // ---------------------------------------------------------------- and whatever is in the grammar ends there

  /** Text of the grammar, followed by nothing that continues it, is skipped exactly. */
  lemma {:induction false} LooseElementEnds(s: string, begin: nat, level: nat, q: nat)
    requires begin <= q <= |s| && LooseElement(s[begin..q], level) && Ends(s, q)
    ensures InitOK(s, begin, level) && ElementEnd(s, begin, level) == At(q)
    decreases q - begin, 3
  {
    hide StringEnd, NumberEnd, ItemsEnd, MembersEnd, PairEnd, LooseItems, LooseMembers, LooseString, LooseNumber, LoosePair,
         SomeItems, SomeMembers;
    var t := s[begin..q];
    assert s[begin] == t[0];
    if t[0] == '[' {
      if t != "[]" {
        Inside(s, begin, q);
        LooseItemsEnd(s, begin + 1, level, q - 1);
      } else {
        assert s[begin + 1] == t[1];
      }
    } else if t[0] == '{' {
      if t != "{}" {
        Inside(s, begin, q);
        LooseMembersEnd(s, begin + 1, level, q - 1);
      } else {
        assert s[begin + 1] == t[1];
      }
    } else if t[0] == '"' {
      if LooseString(t) {
        LooseStringEnds(s, begin, q);
      } else {
        LoosePairEnds(s, begin, level, q);
      }
    } else if t[0] !in "tfn" {
      WholeNumberEnds(s, begin, q);
    }
  }

  lemma WholeNumberEnds(s: string, begin: nat, q: nat)
    requires begin <= q <= |s| && LooseNumber(s[begin..q]) && Ends(s, q)
    ensures begin < q && (s[begin] == '-' || IsDigit(s[begin])) && NumberEnd(s, begin) == At(q)
  {
    hide NumberFrom, NumberEnd, NumberRest;
    var t := s[begin..q];
    assert s[begin] == t[0] && t[1..] == s[begin + 1..q];
    NumberEndFrom(s, begin);
    LooseNumberEnds(s, begin + 1, q, 1);
    if s[begin] != '-' {
      NumberFromStep(s, begin, 1);
    }
  }

  lemma {:induction false} LoosePairEnds(s: string, begin: nat, level: nat, q: nat)
    requires begin <= q <= |s| && LoosePair(s[begin..q], level) && Ends(s, q)
    ensures InitOK(s, begin, level) && GetType(s, begin) == Is(NameValuePairType) && PairEnd(s, begin, level) == At(q)
    decreases q - begin, 2
  {
    hide StringEnd, ElementEnd, LooseElement;
    var t := s[begin..q];
    var k: nat :| NameOf(t, level, k);
    var pos := begin + k;
    assert t[..k] == s[begin..pos] && s[pos] == ':' && t[k + 1..] == s[pos + 1..q] && s[begin] == t[..k][0];
    LooseStringEnds(s, begin, pos);
    LooseElementEnds(s, pos + 1, level + 1, q);
  }

  lemma {:induction false} LooseItemsEnd(s: string, p: nat, level: nat, q: nat)
    requires p <= q < |s| && s[q] == ']' && SomeItems(s[p..q], level + 1)
    ensures p < q && s[p] != ']' && ItemsEnd(s, p, level) == At(q + 1)
    decreases q - p, 4
  {
    hide ElementEnd, LooseElement;
    var u := s[p..q];
    var n: nat :| LooseItems(u, level + 1, n);
    var k: nat :| ItemsFrom(u, level + 1, n, k);
    var pos := p + k;
    assert u[..k] == s[p..pos];
    LooseElementEnds(s, p, level + 1, pos);
    NoBracket(s[p..pos], level + 1);
    if k < |u| {
      assert u[k + 1..] == s[pos + 1..q];
      LooseItemsEnd(s, pos + 1, level, q);
    }
  }

  lemma NoBracket(t: string, level: nat)
    requires LooseElement(t, level)
    ensures t != "" && t[0] != ']' && t[0] != '}' && t[0] != ','
  {
    hide LooseString, LoosePair, SomeItems, SomeMembers, NumberRest;
  }

  lemma {:induction false} LooseMembersEnd(s: string, p: nat, level: nat, q: nat)
    requires p <= q < |s| && s[q] == '}' && SomeMembers(s[p..q], level + 1)
    ensures p < q && s[p] != '}' && MembersEnd(s, p, level) == At(q + 1)
    decreases q - p, 4
  {
    hide PairEnd, LoosePair, GetType;
    var u := s[p..q];
    var n: nat :| LooseMembers(u, level + 1, n);
    var k: nat :| MembersFrom(u, level + 1, n, k);
    var pos := p + k;
    assert u[..k] == s[p..pos];
    LoosePairEnds(s, p, level + 1, pos);
    PairStart(s[p..pos], level + 1);
    if k < |u| {
      assert u[k + 1..] == s[pos + 1..q];
      LooseMembersEnd(s, pos + 1, level, q);
    }
  }

  lemma PairStart(t: string, level: nat)
    requires LoosePair(t, level)
    ensures t != "" && t[0] == '"'
  {
    hide LooseElement;
    var k: nat :| NameOf(t, level, k);
    assert t[0] == t[..k][0];
  }

  /** On any text: an element ends at a place that does not continue it if and only if the text up to there is in the
      grammar. */
  lemma ElementExactly(s: string, begin: nat, level: nat, q: nat)
    requires InitOK(s, begin, level) && begin <= q && Ends(s, q)
    ensures ElementEnd(s, begin, level) == At(q) <==> LooseElement(s[begin..q], level)
  {
    hide *;
    EndsWithin(s, q);
    if ElementEnd(s, begin, level) == At(q) {
      ElementIsLoose(s, begin, level, q);
    }
    if LooseElement(s[begin..q], level) {
      LooseElementEnds(s, begin, level, q);
    }
  }

  lemma EndsWithin(s: string, q: nat)
    requires Ends(s, q)
    ensures q <= |s|
  {
  }

  /** Every JSON value is in the grammar. */
  lemma ValidIsLoose(v: Value, level: nat)
    requires Valid(v) && level + Depth(v) <= JSON_MAX_DEPTH
    ensures LooseElement(Text(v), level)
  {
    hide Text, Valid, LooseElement, ElementEnd;
    ElementExact(v, Text(v), 0, level);
    ElementIsLoose(Text(v), 0, level, |Text(v)|);
    assert Text(v)[0..|Text(v)|] == Text(v);
  }

  // ---------------------------------------------------------------- literals cut off by the end of the text

  /** `m` names, each followed by a colon. */
  ghost predicate LooseNames(t: string, m: nat)
    decreases m, 1
  {
    if m == 0 then t == "" else exists k: nat :: NamesFrom(t, m, k)
  }

  ghost predicate NamesFrom(t: string, m: nat, k: nat)
    requires m > 0
    decreases m, 0
  {
    k < |t| && LooseString(t[..k]) && t[k] == ':' && LooseNames(t[k + 1..], m - 1)
  }

  /** A literal that starts at `p` and would end at `q`. */
  predicate LiteralAt(s: string, p: nat, q: nat) {
    p < |s| && (if s[p] == 'f' then q == p + 5 else (s[p] == 't' || s[p] == 'n') && q == p + 4)
  }

  /** An element ends beyond the text if and only if it is a literal, possibly behind names, that the text cuts off. */
  lemma {:induction false} BeyondTheEnd(s: string, begin: nat, level: nat, q: nat) returns (p: nat, m: nat)
    requires InitOK(s, begin, level) && ElementEnd(s, begin, level) == At(q) && q > |s|
    ensures begin <= p && LiteralAt(s, p, q) && LooseNames(s[begin..p], m) && level + m <= JSON_MAX_DEPTH
    decreases |s| - begin
  {
    hide StringEnd, NumberEnd, ItemsEnd, MembersEnd, LooseString;
    p, m := begin, 0;
    match GetType(s, begin)
    case Is(NameValuePairType) =>
      var pos := StringEnd(s, begin).pos;
      StringIsLoose(s, begin);
      p, m := BeyondTheEnd(s, pos + 1, level + 1, q);
      m := m + 1;
      var t, k := s[begin..p], pos - begin;
      assert t[..k] == s[begin..pos] && t[k] == ':' && t[k + 1..] == s[pos + 1..p];
      assert NamesFrom(t, m, k);
    case Is(ArrayType) =>
      if s[begin + 1] != ']' {
        ItemsAreLoose(s, begin + 1, level, q);
      }
    case Is(ObjectType) =>
      if s[begin + 1] != '}' {
        MembersAreLoose(s, begin + 1, level, q);
      }
    case _ =>
  }

  lemma {:induction false} CutOffLiteral(s: string, begin: nat, level: nat, p: nat, m: nat, q: nat)
    requires begin <= p && LiteralAt(s, p, q) && LooseNames(s[begin..p], m) && level + m <= JSON_MAX_DEPTH
    ensures InitOK(s, begin, level) && ElementEnd(s, begin, level) == At(q)
    decreases m
  {
    hide StringEnd, ElementEnd, LooseString;
    if m == 0 {
      LiteralEnds(s, begin, level, q);
    } else {
      var t := s[begin..p];
      var k: nat :| NamesFrom(t, m, k);
      var pos := begin + k;
      assert t[..k] == s[begin..pos] && s[pos] == ':' && t[k + 1..] == s[pos + 1..p];
      LooseStringEnds(s, begin, pos);
      CutOffLiteral(s, pos + 1, level + 1, p, m - 1, q);
      PairEnds(s, begin, level, pos);
    }
  }

  lemma LiteralEnds(s: string, begin: nat, level: nat, q: nat)
    requires LiteralAt(s, begin, q) && level <= JSON_MAX_DEPTH
    ensures InitOK(s, begin, level) && ElementEnd(s, begin, level) == At(q)
  {
    hide StringEnd, NumberEnd, ArrayEnd, ObjectEnd, PairEnd;
  }

  lemma PairEnds(s: string, begin: nat, level: nat, pos: nat)
    requires StringEnd(s, begin) == At(pos) && pos < |s| && s[pos] == ':' && InitOK(s, pos + 1, level + 1)
    ensures InitOK(s, begin, level) && ElementEnd(s, begin, level) == ElementEnd(s, pos + 1, level + 1)
  {
    StartsWithQuote(s, begin);
    hide StringEnd, NumberEnd, ArrayEnd, ObjectEnd;
  }

  lemma StartsWithQuote(s: string, begin: nat)
    requires StringEnd(s, begin).At?
    ensures begin < |s| && s[begin] == '"'
  {
  }

  // ---------------------------------------------------------------- size on any text

  lemma {:induction false} CountIsLoose(s: string, p: nat, level: nat, n: nat) returns (r: nat)
    requires InitOK(s, p, level) && CountFrom(s, MoveTo(p), level) == Size(n)
    ensures p < r < |s| && LooseItems(s[p..r], level, n) && s[r] != ','
    decreases |s| - p
  {
    hide ElementEnd, LooseElement;
    var pos := ElementEnd(s, p, level).pos;
    ElementIsLoose(s, p, level, pos);
    var k := pos - p;
    if s[pos] == ',' {
      r := CountIsLoose(s, pos + 1, level, n - 1);
      var u := s[p..r];
      assert u[..k] == s[p..pos] && u[k] == ',' && u[k + 1..] == s[pos + 1..r];
      assert ItemsFrom(u, level, n, k);
    } else {
      r := pos;
      var u := s[p..r];
      assert u[..k] == s[p..pos] && k == |u|;
      assert ItemsFrom(u, level, 1, k);
    }
  }

  lemma {:induction false} LooseCount(s: string, p: nat, level: nat, n: nat, r: nat)
    requires p <= r < |s| && LooseItems(s[p..r], level, n) && s[r] != ',' && Ends(s, r)
    ensures InitOK(s, p, level) && s[p] != ']' && s[p] != '}' && CountFrom(s, MoveTo(p), level) == Size(n)
    decreases r - p
  {
    hide ElementEnd, LooseElement;
    var u := s[p..r];
    var k: nat :| ItemsFrom(u, level, n, k);
    var pos := p + k;
    assert u[..k] == s[p..pos];
    LooseElementEnds(s, p, level, pos);
    NoBracket(s[p..pos], level);
    if k < |u| {
      assert u[k + 1..] == s[pos + 1..r];
      LooseCount(s, pos + 1, level, n - 1, r);
    }
  }

  /** On any text: a positive size is the number of elements, separated by commas, that the grammar finds behind the
      bracket or brace, up to the first character that is no comma. */
  lemma SizeIsLoose(s: string, begin: nat, level: nat, n: nat) returns (r: nat)
    requires begin < |s| && SizeOf(s, begin, level) == Size(n) && n > 0
    ensures (s[begin] == '[' || s[begin] == '{') && begin < r < |s| && LooseItems(s[begin + 1..r], level + 1, n) && s[r] != ','
  {
    hide CountFrom, StringEnd, LooseItems;
    NothingLeft(s, level + 1);
    r := CountIsLoose(s, begin + 1, level + 1, n);
  }

  lemma NothingLeft(s: string, level: nat)
    ensures CountFrom(s, MoveEnd, level) == Size(0) && CountFrom(s, MoveThrows, level) == SizeThrows
  {
  }

  lemma LooseSize(s: string, begin: nat, level: nat, n: nat, r: nat)
    requires begin < r < |s| && (s[begin] == '[' || s[begin] == '{')
    requires LooseItems(s[begin + 1..r], level + 1, n) && s[r] != ',' && Ends(s, r)
    ensures SizeOf(s, begin, level) == Size(n)
  {
    hide CountFrom, LooseItems;
    LooseCount(s, begin + 1, level + 1, n, r);
  }

  /** And size zero means a closing bracket or brace right behind the opening one, within the depth limit. */
  lemma SizeZero(s: string, begin: nat, level: nat)
    requires begin < |s|
    ensures SizeOf(s, begin, level) == Size(0) <==>
      (s[begin] == '[' || s[begin] == '{') && begin + 1 < |s| && (s[begin + 1] == ']' || s[begin + 1] == '}')
      && level + 1 <= JSON_MAX_DEPTH
  {
    hide CountFrom, StringEnd;
    NothingLeft(s, level + 1);
    if First(s, begin, level).MoveTo? && SizeOf(s, begin, level) == Size(0) {
      var r := CountIsLoose(s, begin + 1, level + 1, 0);
    }
  }

  /** A comma or a bracket is missing: the reader stops rather than guess. */
  lemma NotSeparated()
    ensures ElementEnd("[1 ,2]", 0, 0) == Throws && SizeOf("[1 ,2]", 0, 0) == Size(1)
  {
    var s := "[1 ,2]";
    assert s[1..2] == "1" && NumberRest("", 1) && "1"[1..] == "";
    LooseElementEnds(s, 1, 1, 2);
    assert ItemsFrom(s[1..2], 1, 1, 1) by {
      assert s[1..2][..1] == "1";
    }
    LooseSize(s, 0, 0, 1, 2);
  }
}
