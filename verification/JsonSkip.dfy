/** The lazy JSON reader: finding where an element ends and how many members it has. */
module JsonSkip {
  import opened Decimal
  import opened Json

  const JSON_MAX_DEPTH: nat := 100

  /** A position, or a JSONException. */
  datatype Skip = Throws | At(pos: nat)

  datatype ElementType = ObjectType | ArrayType | NumberType | StringType | BoolType | NullType | NameValuePairType

  datatype TypeResult = TypeError | Is(elementType: ElementType)

  /** What the constructor of a sub-element checks. */
  predicate InitOK(s: string, begin: nat, level: nat) {
    begin < |s| && level <= JSON_MAX_DEPTH
  }

  // ---------------------------------------------------------------- strings and numbers

  /** memchr: the first quote from `p` on, or the end. */
  function FindQuote(s: string, p: nat): (q: nat)
    requires p <= |s|
    ensures p <= q <= |s| && (q < |s| ==> s[q] == '"')
    decreases |s| - p
  {
    if p == |s| || s[p] == '"' then p else FindQuote(s, p + 1)
  }

  function SlowEnd(s: string, p: nat): (r: Skip)
    requires p <= |s|
    ensures r.At? ==> p < r.pos <= |s|
    decreases |s| - p
  {
    if p == |s| then Throws
    else if s[p] == '"' then At(p + 1)
    else if s[p] == '\\' then
      if p + 1 >= |s| then Throws
      else if s[p + 1] == 'u' then
        if p + 5 >= |s| then Throws else SlowEnd(s, p + 6)
      else SlowEnd(s, p + 2)
    else SlowEnd(s, p + 1)
  }

  function StringEnd(s: string, begin: nat): (r: Skip)
    ensures r.At? ==> begin + 1 < r.pos <= |s|
  {
    if begin >= |s| || s[begin] != '"' then Throws
    else
      var closing := FindQuote(s, begin + 1);
      if closing < |s| && s[closing - 1] != '\\' then At(closing + 1) else SlowEnd(s, begin + 1)
  }

  function DigitsEnd(s: string, p: nat): (q: nat)
    requires p <= |s|
    ensures p <= q <= |s| && (q < |s| ==> !IsDigit(s[q]))
    decreases |s| - p
  {
    if p < |s| && IsDigit(s[p]) then DigitsEnd(s, p + 1) else p
  }

  /** Past one character, if it is there. */
  function PastChar(s: string, p: nat, c: char, d: char): (q: nat)
    requires p <= |s|
    ensures p <= q <= |s|
  {
    if p < |s| && (s[p] == c || s[p] == d) then p + 1 else p
  }

  function NumberEnd(s: string, begin: nat): (r: Skip)
    ensures r.At? ==> begin <= r.pos <= |s|
    ensures begin < |s| && (s[begin] == '-' || IsDigit(s[begin])) ==> r.At? && begin < r.pos
  {
    if begin >= |s| then Throws
    else
      var whole := DigitsEnd(s, PastChar(s, begin, '-', '-'));
      var fraction := DigitsEnd(s, PastChar(s, whole, '.', '.'));
      At(DigitsEnd(s, PastChar(s, PastChar(s, fraction, 'e', 'E'), '-', '-')))
  }

  function BoolEnd(s: string, begin: nat): Skip {
    if begin >= |s| then Throws
    else if s[begin] == 't' then At(begin + 4)
    else if s[begin] == 'f' then At(begin + 5)
    else Throws
  }

  function NullEnd(begin: nat): Skip {
    At(begin + 4)
  }

  // ---------------------------------------------------------------- elements

  function GetType(s: string, begin: nat): TypeResult
    requires begin < |s|
  {
    var c := s[begin];
    if c == '{' then Is(ObjectType)
    else if c == '[' then Is(ArrayType)
    else if c == 't' || c == 'f' then Is(BoolType)
    else if c == 'n' then Is(NullType)
    else if c == '-' || IsDigit(c) then Is(NumberType)
    else if c == '"' then
      match StringEnd(s, begin)
      case Throws => TypeError
      case At(pos) => if pos < |s| && s[pos] == ':' then Is(NameValuePairType) else Is(StringType)
    else TypeError
  }

  function PairEnd(s: string, begin: nat, level: nat): (r: Skip)
    ensures r.At? ==> begin < r.pos
    decreases |s| - begin, 2
  {
    match StringEnd(s, begin)
    case Throws => Throws
    case At(pos) =>
      if pos >= |s| || s[pos] != ':' || !InitOK(s, pos + 1, level + 1) then Throws
      else ElementEnd(s, pos + 1, level + 1)
  }

  function ItemsEnd(s: string, p: nat, level: nat): (r: Skip)
    ensures r.At? ==> p < r.pos
    decreases |s| - p, 4
  {
    if !InitOK(s, p, level + 1) then Throws
    else
      match ElementEnd(s, p, level + 1)
      case Throws => Throws
      case At(pos) =>
        if pos >= |s| then Throws
        else if s[pos] == ',' then ItemsEnd(s, pos + 1, level)
        else if s[pos] == ']' then At(pos + 1)
        else Throws
  }

  function ArrayEnd(s: string, begin: nat, level: nat): (r: Skip)
    requires begin < |s| && GetType(s, begin) == Is(ArrayType)
    ensures r.At? ==> begin < r.pos
    decreases |s| - begin, 1
  {
    if begin + 1 >= |s| then Throws
    else if s[begin + 1] == ']' then At(begin + 2)
    else ItemsEnd(s, begin + 1, level)
  }

  function MembersEnd(s: string, p: nat, level: nat): (r: Skip)
    ensures r.At? ==> p < r.pos
    decreases |s| - p, 4
  {
    if !InitOK(s, p, level + 1) then Throws
    else
      match PairEnd(s, p, level + 1)
      case Throws => Throws
      case At(pos) =>
        if pos >= |s| then Throws
        else if s[pos] == ',' then MembersEnd(s, pos + 1, level)
        else if s[pos] == '}' then At(pos + 1)
        else Throws
  }

  function ObjectEnd(s: string, begin: nat, level: nat): (r: Skip)
    requires begin < |s| && GetType(s, begin) == Is(ObjectType)
    ensures r.At? ==> begin < r.pos
    decreases |s| - begin, 1
  {
    if begin + 1 >= |s| then Throws
    else if s[begin + 1] == '}' then At(begin + 2)
    else MembersEnd(s, begin + 1, level)
  }

  /** On any text: an exception, or a position strictly further on. */
  function ElementEnd(s: string, begin: nat, level: nat): (r: Skip)
    requires InitOK(s, begin, level)
    ensures r.At? ==> begin < r.pos
    decreases |s| - begin, 3
  {
    match GetType(s, begin)
    case TypeError => Throws
    case Is(elementType) =>
      match elementType
      case NullType => NullEnd(begin)
      case BoolType => BoolEnd(s, begin)
      case NumberType => NumberEnd(s, begin)
      case StringType => StringEnd(s, begin)
      case NameValuePairType => PairEnd(s, begin, level)
      case ArrayType => ArrayEnd(s, begin, level)
      case ObjectType => ObjectEnd(s, begin, level)
  }

  // ---------------------------------------------------------------- the scanning loops

  method SkipString(s: string, begin: nat) returns (r: Skip)
    ensures r == StringEnd(s, begin)
  {
    if begin >= |s| || s[begin] != '"' {
      return Throws;
    }
    var pos := begin + 1;
    var closing := pos;
    while closing < |s| && s[closing] != '"'
      invariant pos <= closing <= |s| && FindQuote(s, closing) == FindQuote(s, pos)
    {
      closing := closing + 1;
    }
    if closing < |s| && s[closing - 1] != '\\' {
      return At(closing + 1);
    }
    while pos < |s| && s[pos] != '"'
      invariant pos <= |s| && SlowEnd(s, pos) == SlowEnd(s, begin + 1)
    {
      if s[pos] == '\\' {
        pos := pos + 1;
        if pos >= |s| {
          return Throws;
        }
        if s[pos] == 'u' {
          pos := pos + 4;
          if pos >= |s| {
            return Throws;
          }
        }
      }
      pos := pos + 1;
    }
    if pos >= |s| {
      return Throws;
    }
    r := At(pos + 1);
  }

  method PassDigits(s: string, p: nat) returns (q: nat)
    requires p <= |s|
    ensures q == DigitsEnd(s, p)
  {
    q := p;
    while q < |s| && '0' <= s[q] <= '9'
      invariant p <= q <= |s| && DigitsEnd(s, q) == DigitsEnd(s, p)
    {
      q := q + 1;
    }
  }

  method PassChar(s: string, p: nat, c: char, d: char) returns (q: nat)
    requires p <= |s|
    ensures q == PastChar(s, p, c, d)
  {
    q := p;
    if p < |s| && (s[p] == c || s[p] == d) {
      q := q + 1;
    }
  }

  method SkipNumber(s: string, begin: nat) returns (r: Skip)
    ensures r == NumberEnd(s, begin)
  {
    hide DigitsEnd, PastChar;
    var pos := begin;
    if pos >= |s| {
      return Throws;
    }
    pos := PassChar(s, pos, '-', '-');
    pos := PassDigits(s, pos);
    pos := PassChar(s, pos, '.', '.');
    pos := PassDigits(s, pos);
    pos := PassChar(s, pos, 'e', 'E');
    pos := PassChar(s, pos, '-', '-');
    pos := PassDigits(s, pos);
    r := At(pos);
  }

  method SkipNameValuePair(s: string, begin: nat, level: nat) returns (r: Skip)
    ensures r == PairEnd(s, begin, level)
    decreases |s| - begin, 2
  {
    r := SkipString(s, begin);
    if r.Throws? || r.pos >= |s| || s[r.pos] != ':' {
      return Throws;
    }
    var pos := r.pos + 1;
    if !InitOK(s, pos, level + 1) {
      return Throws;
    }
    r := SkipElement(s, pos, level + 1);
  }

  method SkipArray(s: string, begin: nat, level: nat) returns (r: Skip)
    requires begin < |s|
    ensures r == if GetType(s, begin) == Is(ArrayType) then ArrayEnd(s, begin, level) else Throws
    decreases |s| - begin, 1
  {
    if GetType(s, begin) != Is(ArrayType) {
      return Throws;
    }
    var pos := begin + 1;
    if pos >= |s| {
      return Throws;
    }
    if s[pos] == ']' {
      return At(pos + 1);
    }
    while true
      invariant begin < pos && ItemsEnd(s, pos, level) == ItemsEnd(s, begin + 1, level)
      decreases |s| - pos
    {
      if !InitOK(s, pos, level + 1) {
        return Throws;
      }
      var element := SkipElement(s, pos, level + 1);
      if element.Throws? || element.pos >= |s| {
        return Throws;
      }
      pos := element.pos;
      if s[pos] == ',' {
        pos := pos + 1;
      } else if s[pos] == ']' {
        return At(pos + 1);
      } else {
        return Throws;
      }
    }
  }

  method SkipObject(s: string, begin: nat, level: nat) returns (r: Skip)
    requires begin < |s|
    ensures r == if GetType(s, begin) == Is(ObjectType) then ObjectEnd(s, begin, level) else Throws
    decreases |s| - begin, 1
  {
    if GetType(s, begin) != Is(ObjectType) {
      return Throws;
    }
    var pos := begin + 1;
    if pos >= |s| {
      return Throws;
    }
    if s[pos] == '}' {
      return At(pos + 1);
    }
    while true
      invariant begin < pos && MembersEnd(s, pos, level) == MembersEnd(s, begin + 1, level)
      decreases |s| - pos
    {
      if !InitOK(s, pos, level + 1) {
        return Throws;
      }
      var element := SkipNameValuePair(s, pos, level + 1);
      if element.Throws? || element.pos >= |s| {
        return Throws;
      }
      pos := element.pos;
      if s[pos] == ',' {
        pos := pos + 1;
      } else if s[pos] == '}' {
        return At(pos + 1);
      } else {
        return Throws;
      }
    }
  }

  method SkipElement(s: string, begin: nat, level: nat) returns (r: Skip)
    requires InitOK(s, begin, level)
    ensures r == ElementEnd(s, begin, level)
    decreases |s| - begin, 3
  {
    var t := GetType(s, begin);
    if t.TypeError? {
      return Throws;
    }
    match t.elementType
    case NullType =>
      r := At(begin + 4);
    case BoolType =>
      r := BoolEnd(s, begin);
    case NumberType =>
      r := SkipNumber(s, begin);
    case StringType =>
      r := SkipString(s, begin);
    case NameValuePairType =>
      r := SkipNameValuePair(s, begin, level);
    case ArrayType =>
      r := SkipArray(s, begin, level);
    case ObjectType =>
      r := SkipObject(s, begin, level);
  }

  // ---------------------------------------------------------------- iteration and size

  /** Where the iterator goes: nowhere (end), to a position, or an exception. */
  datatype Move = MoveThrows | MoveEnd | MoveTo(pos: nat)

  /** begin(); for an empty container it is end(), whose construction checks the level as well. */
  function First(s: string, begin: nat, level: nat): Move
    requires begin < |s|
  {
    var t := GetType(s, begin);
    if t != Is(ArrayType) && t != Is(ObjectType) then MoveThrows
    else if begin + 1 >= |s| then MoveThrows
    else if s[begin + 1] == '}' || s[begin + 1] == ']' then if level + 1 > JSON_MAX_DEPTH then MoveThrows else MoveEnd
    else if !InitOK(s, begin + 1, level + 1) then MoveThrows
    else MoveTo(begin + 1)
  }

  /** From one member to the next; `level` is the iterator's own. */
  function Next(s: string, pos: nat, level: nat): (m: Move)
    requires InitOK(s, pos, level)
    ensures m.MoveTo? ==> pos < m.pos < |s|
  {
    match ElementEnd(s, pos, level)
    case Throws => MoveThrows
    case At(after) =>
      if after >= |s| then MoveThrows
      else if s[after] != ',' then MoveEnd
      else if after + 1 >= |s| then MoveThrows
      else MoveTo(after + 1)
  }

  datatype Size = SizeThrows | Size(count: nat)

  /** Members from an iterator's position on. */
  function CountFrom(s: string, m: Move, level: nat): Size
    requires m.MoveTo? ==> InitOK(s, m.pos, level)
    decreases if m.MoveTo? then |s| - m.pos else 0
  {
    match m
    case MoveThrows => SizeThrows
    case MoveEnd => Size(0)
    case MoveTo(pos) =>
      var rest := CountFrom(s, Next(s, pos, level), level);
      if rest.SizeThrows? then SizeThrows else Size(1 + rest.count)
  }

  function SizeOf(s: string, begin: nat, level: nat): Size
    requires begin < |s|
  {
    CountFrom(s, First(s, begin, level), level + 1)
  }

  /** The element doubles as its own iterator; `ended` stands for a null `ptr_begin`. */
  class Iterator {
    const s: string
    const level: nat
    var begin: nat
    var ended: bool

    ghost predicate Valid()
      reads this
    {
      ended || InitOK(s, begin, level)
    }

    constructor (s: string, begin: nat, level: nat, ended: bool)
      requires ended || InitOK(s, begin, level)
      ensures Valid() && this.s == s && this.begin == begin && this.level == level && this.ended == ended
    {
      this.s, this.begin, this.level, this.ended := s, begin, level, ended;
    }

    /** operator++ */
    method Increment() returns (ok: bool)
      requires Valid() && !ended
      modifies this
      ensures ok <==> !Next(s, old(begin), level).MoveThrows?
      ensures ok ==> Valid() && (ended <==> Next(s, old(begin), level).MoveEnd?)
      ensures ok && !ended ==> Next(s, old(begin), level) == MoveTo(begin)
    {
      var r := SkipElement(s, begin, level);
      if r.Throws? || r.pos >= |s| {
        return false;
      }
      if s[r.pos] != ',' {
        ended := true;
      } else {
        if r.pos + 1 >= |s| {
          return false;
        }
        begin := r.pos + 1;
      }
      ok := true;
    }
  }

  method CountMembers(s: string, begin: nat, level: nat) returns (r: Size)
    requires begin < |s|
    ensures r == SizeOf(s, begin, level)
  {
    var first := First(s, begin, level);
    if first.MoveThrows? {
      return SizeThrows;
    }
    var it := new Iterator(s, if first.MoveTo? then first.pos else 0, level + 1, first.MoveEnd?);
    var i := 0;
    ghost var here := first;
    while !it.ended
      invariant it.Valid() && it.s == s && it.level == level + 1
      invariant it.ended ==> here == MoveEnd
      invariant !it.ended ==> here == MoveTo(it.begin)
      invariant here.MoveTo? ==> InitOK(s, here.pos, level + 1)
      invariant SizeOf(s, begin, level)
             == if CountFrom(s, here, level + 1).SizeThrows? then SizeThrows else Size(i + CountFrom(s, here, level + 1).count)
      decreases if it.ended then 0 else 1, |s| - it.begin
    {
      here := Next(s, it.begin, level + 1);
      var ok := it.Increment();
      if !ok {
        return SizeThrows;
      }
      i := i + 1;
    }
    r := Size(i);
  }
}
