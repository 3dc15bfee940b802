/** JSON text according to sections 3 to 7 of RFC 8259, without whitespace and with exponents that carry no '+'. */
module Json {
  import opened Decimal

  // ---------------------------------------------------------------- values

  /** One character of a string: as it is, after a backslash, or by its code. */
  datatype Unit = Plain(c: char) | Escaped(c: char) | Unicode(hex: string)

  datatype Exponent = NoExponent | Exponent(upper: bool, negative: bool, digits: string)

  datatype Value =
    | Null
    | Bool(b: bool)
    | Number(negative: bool, whole: string, fraction: string, exponent: Exponent)
    | String(units: seq<Unit>)
    | Array(items: Items)
    | Object(members: Members)

  datatype Items = NoItem | Item(head: Value, rest: Items)

  datatype Members = NoMember | Member(name: seq<Unit>, value: Value, rest: Members)

  predicate IsHexDigit(c: char) {
    IsDigit(c) || 'a' <= c <= 'f' || 'A' <= c <= 'F'
  }

  predicate ValidUnit(u: Unit) {
    match u
    case Plain(c) => c != '"' && c != '\\'
    case Escaped(c) => c in "\"\\/bfnrt"
    case Unicode(hex) => |hex| == 4 && forall i :: 0 <= i < 4 ==> IsHexDigit(hex[i])
  }

  predicate ValidUnits(units: seq<Unit>) {
    forall i :: 0 <= i < |units| ==> ValidUnit(units[i])
  }

  predicate ValidExponent(e: Exponent) {
    e.Exponent? ==> |e.digits| > 0 && AllDigits(e.digits)
  }

  predicate Valid(v: Value) {
    match v
    case Null => true
    case Bool(_) => true
    case Number(_, whole, fraction, exponent) =>
      |whole| > 0 && AllDigits(whole) && (|whole| == 1 || whole[0] != '0') && AllDigits(fraction) && ValidExponent(exponent)
    case String(units) => ValidUnits(units)
    case Array(items) => ValidItems(items)
    case Object(members) => ValidMembers(members)
  }

  predicate ValidItems(items: Items) {
    items.Item? ==> Valid(items.head) && ValidItems(items.rest)
  }

  predicate ValidMembers(members: Members) {
    members.Member? ==> ValidUnits(members.name) && Valid(members.value) && ValidMembers(members.rest)
  }

  // ---------------------------------------------------------------- text

  function UnitText(u: Unit): string {
    match u
    case Plain(c) => [c]
    case Escaped(c) => ['\\', c]
    case Unicode(hex) => ['\\', 'u'] + hex
  }

  function Content(units: seq<Unit>): string {
    if units == [] then "" else UnitText(units[0]) + Content(units[1..])
  }

  function Quoted(units: seq<Unit>): string {
    ['"'] + (Content(units) + ['"'])
  }

  function ExponentText(e: Exponent): string {
    match e
    case NoExponent => ""
    case Exponent(upper, negative, digits) => (if upper then "E" else "e") + ((if negative then "-" else "") + digits)
  }

  function Text(v: Value): string
    decreases v, 0
  {
    match v
    case Null => "null"
    case Bool(b) => if b then "true" else "false"
    case Number(negative, whole, fraction, exponent) =>
      (if negative then "-" else "") + (whole + ((if fraction == "" then "" else "." + fraction) + ExponentText(exponent)))
    case String(units) => Quoted(units)
    case Array(items) => if items.NoItem? then "[]" else "[" + (ItemsText(items) + "]")
    case Object(members) => if members.NoMember? then "{}" else "{" + (MembersText(members) + "}")
  }

  function ItemsText(items: Items): string
    requires items.Item?
    decreases items, 0
  {
    if items.rest.NoItem? then Text(items.head) else Text(items.head) + ("," + ItemsText(items.rest))
  }

  function MemberText(name: seq<Unit>, value: Value): string
    decreases value, 1
  {
    Quoted(name) + (":" + Text(value))
  }

  function MembersText(members: Members): string
    requires members.Member?
    decreases members, 0
  {
    if members.rest.NoMember? then MemberText(members.name, members.value)
    else MemberText(members.name, members.value) + ("," + MembersText(members.rest))
  }

  // ---------------------------------------------------------------- measures

  function Max(a: nat, b: nat): nat {
    if a < b then b else a
  }

  /** How many levels deeper the parts of a value are visited: a member and its value take one each. */
  function Depth(v: Value): nat {
    match v
    case Array(items) => ItemsDepth(items)
    case Object(members) => MembersDepth(members)
    case _ => 0
  }

  function ItemsDepth(items: Items): nat {
    match items
    case NoItem => 0
    case Item(head, rest) => Max(1 + Depth(head), ItemsDepth(rest))
  }

  function MembersDepth(members: Members): nat {
    match members
    case NoMember => 0
    case Member(_, value, rest) => Max(2 + Depth(value), MembersDepth(rest))
  }

  function ItemCount(items: Items): nat {
    match items
    case NoItem => 0
    case Item(_, rest) => 1 + ItemCount(rest)
  }

  function MemberCount(members: Members): nat {
    match members
    case NoMember => 0
    case Member(_, _, rest) => 1 + MemberCount(rest)
  }
}
