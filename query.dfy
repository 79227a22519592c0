/**
 * The query-filter encoding of `src/api.rs`: the comparison operators
 * `Comp<T>`, their wire tokens, their encoding as a `[token, operand]` JSON
 * pair, the column-to-comparison `Filter`, and the choice of endpoint and body
 * that `Client::get` makes for a `Selection`.
 *
 * The conversion of an operand to JSON (`Into<Value>` for the column value
 * type) is not part of this model; it is the parameter `enc`. `Deserialize`
 * and `DeserializeFilter` are reference readers of the wire format, the
 * inverses against which the encoding is proved lossless.
 */
module Query {
  import opened Common

  /** The part of a JSON value this encoding produces. */
  datatype Json = JString(str: string) | JArray(items: seq<Json>) | JObject(fields: map<string, Json>)

  /** `Comp<T>`: a comparison of a column against one or more operands. */
  datatype Comp<T> =
    | Le(value: T)
    | Ge(value: T)
    | Leq(value: T)
    | Geq(value: T)
    | Eq(value: T)
    | Neq(value: T)
    | In(values: seq<T>)
    | Nin(values: seq<T>)
    | Between(min: T, max: T)
  {
    predicate Unary()
    {
      Le? || Ge? || Leq? || Geq? || Eq? || Neq?
    }

    /** The position of the variant in the declaration. */
    function Variant(): (k: nat)
      ensures k < 9
    {
      match this
      case Le(_) => 0
      case Ge(_) => 1
      case Leq(_) => 2
      case Geq(_) => 3
      case Eq(_) => 4
      case Neq(_) => 5
      case In(_) => 6
      case Nin(_) => 7
      case Between(_, _) => 8
    }
  }

  /** The wire tokens, in the order the variants are declared. */
  const Tokens: seq<string> := ["<", ">", "<=", ">=", "==", "!=", "in", "not_in", "range"]

  /** `Comp::operator`. */
  function Operator<T>(c: Comp<T>): (token: string)
    ensures token == Tokens[c.Variant()]
  {
    match c
    case Le(_) => "<"
    case Ge(_) => ">"
    case Leq(_) => "<="
    case Geq(_) => ">="
    case Eq(_) => "=="
    case Neq(_) => "!="
    case In(_) => "in"
    case Nin(_) => "not_in"
    case Between(_, _) => "range"
  }

  /** Two comparisons get the same token iff they are the same variant. */
  lemma OperatorDistinct<T>(a: Comp<T>, b: Comp<T>)
    ensures Operator(a) == Operator(b) <==> a.Variant() == b.Variant()
  {
  }

  // ---------------------------------------------------------------------------
  // Encoding

  /** Every operand of a list converted, in order. */
  function EncodeAll<T>(xs: seq<T>, enc: T -> Json): (r: seq<Json>)
    ensures |r| == |xs|
  {
    seq(|xs|, i requires 0 <= i < |xs| => enc(xs[i]))
  }

  /** The second element of the pair. */
  function Operand<T>(c: Comp<T>, enc: T -> Json): Json
  {
    match c
    case Le(v) => enc(v)
    case Ge(v) => enc(v)
    case Leq(v) => enc(v)
    case Geq(v) => enc(v)
    case Eq(v) => enc(v)
    case Neq(v) => enc(v)
    case In(vs) => JArray(EncodeAll(vs, enc))
    case Nin(vs) => JArray(EncodeAll(vs, enc))
    case Between(lo, hi) => JArray([enc(lo), enc(hi)])
  }

  /**
   * The `Serialize` impl of `Comp`: a two-element array of the operator token
   * and the operand. A unary comparison carries its converted operand; `In`
   * and `Nin` an array of the converted operands, same length and order;
   * `Between` the pair `[min, max]` as given.
   */
  function Serialize<T>(c: Comp<T>, enc: T -> Json): (j: Json)
    ensures j.JArray? && |j.items| == 2
    ensures j.items[0] == JString(Operator(c))
    ensures c.Unary() ==> j.items[1] == enc(c.value)
    ensures (c.In? || c.Nin?) ==>
      j.items[1].JArray? && |j.items[1].items| == |c.values| &&
      forall i :: 0 <= i < |c.values| ==> j.items[1].items[i] == enc(c.values[i])
    ensures c.Between? ==> j.items[1] == JArray([enc(c.min), enc(c.max)])
  {
    JArray([JString(Operator(c)), Operand(c, enc)])
  }

  // ---------------------------------------------------------------------------
  // Reading the encoding back

  /** Every element decoded, or `None` if one of them does not decode. */
  function DecodeAll<T>(items: seq<Json>, dec: Json -> Option<T>): (r: Option<seq<T>>)
    ensures r.Some? ==> |r.value| == |items|
  {
    if items == [] then Some([])
    else
      match DecodeAll(items[..|items| - 1], dec)
      case None => None
      case Some(init) =>
        match dec(items[|items| - 1])
        case None => None
        case Some(x) => Some(init + [x])
  }

  function DecodeUnary<T>(token: string, x: T): Option<Comp<T>>
  {
    if token == "<" then Some(Le(x))
    else if token == ">" then Some(Ge(x))
    else if token == "<=" then Some(Leq(x))
    else if token == ">=" then Some(Geq(x))
    else if token == "==" then Some(Eq(x))
    else if token == "!=" then Some(Neq(x))
    else None
  }

  function DecodeOperand<T>(token: string, operand: Json, dec: Json -> Option<T>): Option<Comp<T>>
  {
    if token == "in" || token == "not_in" then
      if !operand.JArray? then None
      else
        match DecodeAll(operand.items, dec)
        case None => None
        case Some(vs) => if token == "in" then Some(In(vs)) else Some(Nin(vs))
    else if token == "range" then
      if !operand.JArray? || |operand.items| != 2 then None
      else
        match (dec(operand.items[0]), dec(operand.items[1]))
        case (Some(lo), Some(hi)) => Some(Between(lo, hi))
        case _ => None
    else
      match dec(operand)
      case None => None
      case Some(x) => DecodeUnary(token, x)
  }

  /** A reader of the `[token, operand]` pair. */
  function Deserialize<T>(j: Json, dec: Json -> Option<T>): Option<Comp<T>>
  {
    if j.JArray? && |j.items| == 2 && j.items[0].JString? then
      DecodeOperand(j.items[0].str, j.items[1], dec)
    else None
  }

  lemma {:induction false} DecodeEncodeAll<T>(xs: seq<T>, enc: T -> Json, dec: Json -> Option<T>)
    requires forall x :: dec(enc(x)) == Some(x)
    ensures DecodeAll(EncodeAll(xs, enc), dec) == Some(xs)
  {
    if xs != [] {
      var init := xs[..|xs| - 1];
      DecodeEncodeAll(init, enc, dec);
      assert EncodeAll(xs, enc)[..|xs| - 1] == EncodeAll(init, enc);
      assert xs == init + [xs[|xs| - 1]];
    }
  }

  /**
   * The encoding loses nothing: whenever the operand conversion can be read
   * back, the whole comparison can, operator and operands in order.
   */
  lemma SerializeRoundTrip<T>(c: Comp<T>, enc: T -> Json, dec: Json -> Option<T>)
    requires forall x :: dec(enc(x)) == Some(x)
    ensures Deserialize(Serialize(c, enc), dec) == Some(c)
  {
    match c
    case In(vs) => DecodeEncodeAll(vs, enc, dec);
    case Nin(vs) => DecodeEncodeAll(vs, enc, dec);
    case _ =>
  }

  /** Distinct comparisons encode differently (given a readable operand conversion). */
  lemma SerializeInjective<T>(a: Comp<T>, b: Comp<T>, enc: T -> Json, dec: Json -> Option<T>)
    requires forall x :: dec(enc(x)) == Some(x)
    ensures Serialize(a, enc) == Serialize(b, enc) ==> a == b
  {
    SerializeRoundTrip(a, enc, dec);
    SerializeRoundTrip(b, enc, dec);
  }

  // ---------------------------------------------------------------------------
  // Filter

  /** The derived `Serialize` of `Filter`: an object from column to encoded comparison. */
  function SerializeFilter<T>(comps: map<string, Comp<T>>, enc: T -> Json): (j: Json)
    ensures j.JObject? && j.fields.Keys == comps.Keys
    ensures forall column :: column in comps ==> j.fields[column] == Serialize(comps[column], enc)
  {
    JObject(map column | column in comps :: Serialize(comps[column], enc))
  }

  /** A reader of a serialized filter. */
  function DeserializeFilter<T>(j: Json, dec: Json -> Option<T>): Option<map<string, Comp<T>>>
  {
    if j.JObject? && forall column :: column in j.fields ==> Deserialize(j.fields[column], dec).Some? then
      Some(map column | column in j.fields :: Deserialize(j.fields[column], dec).value)
    else None
  }

  /** A serialized filter reads back as the same column-to-comparison map. */
  lemma FilterRoundTrip<T>(comps: map<string, Comp<T>>, enc: T -> Json, dec: Json -> Option<T>)
    requires forall x :: dec(enc(x)) == Some(x)
    ensures DeserializeFilter(SerializeFilter(comps, enc), dec) == Some(comps)
  {
    var j := SerializeFilter(comps, enc);
    forall column | column in j.fields ensures Deserialize(j.fields[column], dec) == Some(comps[column]) {
      SerializeRoundTrip(comps[column], enc, dec);
    }
    var back := map column | column in j.fields :: Deserialize(j.fields[column], dec).value;
    assert DeserializeFilter(j, dec) == Some(back);
    assert back == comps by {
      assert back.Keys == comps.Keys;
      forall column | column in back ensures back[column] == comps[column] {
      }
    }
  }

  /** Inserting into a filter overwrites exactly that column of its encoding. */
  lemma InsertOnWire<T>(comps: map<string, Comp<T>>, column: string, comp: Comp<T>, enc: T -> Json)
    ensures SerializeFilter(comps[column := comp], enc)
            == JObject(SerializeFilter(comps, enc).fields[column := Serialize(comp, enc)])
  {
    var lhs := SerializeFilter(comps[column := comp], enc).fields;
    var rhs := SerializeFilter(comps, enc).fields[column := Serialize(comp, enc)];
    assert lhs.Keys == rhs.Keys;
    forall k | k in lhs ensures lhs[k] == rhs[k] {
    }
  }

  /** `Filter`: a map from column name to comparison, updated in place. */
  class Filter<T> {
    var comps: map<string, Comp<T>>

    /** `Filter::new`: no column is constrained. */
    constructor ()
      ensures comps == map[]
    {
      comps := map[];
    }

    /**
     * `Filter::insert`: `column` now maps to `comp`, replacing any earlier
     * comparison; every other column is unchanged.
     */
    method Insert(column: string, comp: Comp<T>)
      modifies this
      ensures column in comps && comps[column] == comp
      ensures comps.Keys == old(comps).Keys + {column}
      ensures forall c :: c in old(comps) && c != column ==> comps[c] == old(comps)[c]
      ensures forall enc: T -> Json ::
                SerializeFilter(comps, enc) == JObject(SerializeFilter(old(comps), enc).fields[column := Serialize(comp, enc)])
    {
      var before := comps;
      comps := comps[column := comp];
      forall enc: T -> Json
        ensures SerializeFilter(comps, enc) == JObject(SerializeFilter(before, enc).fields[column := Serialize(comp, enc)])
      {
        InsertOnWire(before, column, comp, enc);
      }
    }
  }

  // ---------------------------------------------------------------------------
  // Selection and the request it leads to

  /** Rust's `i32`. */
  newtype int32 = x: int | -0x8000_0000 <= x < 0x8000_0000

  /** `Selection`; `ByFilter` is `Selection::Filter` and holds the filter's map. */
  datatype Selection<T> = All | Id(id: int32) | ByFilter(comps: map<string, Comp<T>>)

  /** The endpoint and the optional body of the request `Client::get` sends. */
  datatype Request = Request(url: string, body: Option<Json>)

  function DigitChar(d: nat): (c: char)
    requires d < 10
    ensures '0' <= c <= '9'
  {
    ('0' as int + d) as char
  }

  /** The decimal digits of `n`, most significant first. */
  function Digits(n: nat): (s: string)
    ensures |s| > 0
    ensures forall i :: 0 <= i < |s| ==> '0' <= s[i] <= '9'
  {
    if n < 10 then [DigitChar(n)] else Digits(n / 10) + [DigitChar(n % 10)]
  }

  /** `Display` of an integer: an optional minus sign and the digits. */
  function Decimal(n: int): (s: string)
    ensures |s| > 0
    ensures s[0] == '-' <==> n < 0
    ensures forall i :: (if n < 0 then 1 else 0) <= i < |s| ==> '0' <= s[i] <= '9'
  {
    if n < 0 then "-" + Digits(-n) else Digits(n)
  }

  /** The value of a string of decimal digits. */
  function DigitsValue(s: string): nat
  {
    if s == [] then 0
    else
      var d := s[|s| - 1] as int - '0' as int;
      DigitsValue(s[..|s| - 1]) * 10 + (if 0 <= d < 10 then d else 0)
  }

  function ParseDecimal(s: string): int
  {
    if s != [] && s[0] == '-' then 0 - DigitsValue(s[1..]) else DigitsValue(s)
  }

  lemma {:induction false} DigitsRoundTrip(n: nat)
    ensures DigitsValue(Digits(n)) == n
  {
    if n >= 10 {
      DigitsRoundTrip(n / 10);
      var s := Digits(n);
      assert s[..|s| - 1] == Digits(n / 10);
    }
  }

  /** The rendering of the id loses nothing: it reads back as the same number. */
  lemma DecimalRoundTrip(n: int)
    ensures ParseDecimal(Decimal(n)) == n
  {
    if n < 0 {
      DigitsRoundTrip(-n);
      assert Decimal(n)[1..] == Digits(-n);
    } else {
      DigitsRoundTrip(n);
    }
  }

  /**
   * The endpoint and body chosen in `Client::get`: `Id` asks the single-item
   * endpoint with no body; `All` and `Filter` ask the items endpoint, `All`
   * with the empty object and `Filter` with the serialized filter.
   */
  function BuildRequest<T>(base: string, table: string, selection: Selection<T>, enc: T -> Json): (r: Request)
    ensures selection.Id? <==> r.body.None?
    ensures selection.Id? ==> r.url == base + "/api/item/" + table + "/" + Decimal(selection.id as int)
    ensures !selection.Id? ==> r.url == base + "/api/items/" + table
    ensures selection.All? ==> r.body == Some(JObject(map[]))
    ensures selection.ByFilter? ==> r.body == Some(SerializeFilter(selection.comps, enc))
  {
    var url := match selection
      case Id(id) => base + "/api/item/" + table + "/" + Decimal(id as int)
      case _ => base + "/api/items/" + table;
    var body := match selection
      case All => Some(JObject(map[]))
      case Id(_) => None
      case ByFilter(comps) => Some(SerializeFilter(comps, enc));
    Request(url, body)
  }

  /** Selecting everything is the same request as sending an empty filter. */
  lemma AllIsEmptyFilter<T>(base: string, table: string, enc: T -> Json)
    ensures BuildRequest(base, table, All, enc) == BuildRequest(base, table, ByFilter(map[]), enc)
  {
    assert SerializeFilter(map[], enc).fields == map[];
  }

  /**
   * A by-id request never reaches the items endpoint, and the id can be read
   * back from the end of its URL.
   */
  lemma IdEndpointDistinct<T>(base: string, table: string, other: string, id: int32, rest: Selection<T>, enc: T -> Json)
    requires !rest.Id?
    ensures BuildRequest(base, table, Id(id), enc).url != BuildRequest(base, other, rest, enc).url
    ensures var prefix := base + "/api/item/" + table + "/";
            var url := BuildRequest(base, table, Id(id), enc).url;
            |prefix| <= |url| && url[..|prefix|] == prefix && ParseDecimal(url[|prefix|..]) == id as int
  {
    var byId := BuildRequest(base, table, Id(id), enc).url;
    var items := BuildRequest(base, other, rest, enc).url;
    var k := |base| + 9;
    assert byId[k] == '/' && items[k] == 's';
    var prefix := base + "/api/item/" + table + "/";
    assert byId[|prefix|..] == Decimal(id as int);
    DecimalRoundTrip(id as int);
  }
}
