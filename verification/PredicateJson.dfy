/**
 * The JSON form of a predicate, which identifies it: two predicates have the same canonical
 * encoding only when they are the same predicate.
 */
module PredicateJson {
  import opened Json
  import opened JsValues
  import opened Outcomes
  import opened Predicates
  import opened SemanticJson

  const NODE: JsString := [110, 111, 100, 101]
  const VALUE: JsString := [118, 97, 108, 117, 101]
  const NAME: JsString := [110, 97, 109, 101]
  const BASE: JsString := [111, 98, 106, 101, 99, 116]
  const PROPERTY: JsString := [112, 114, 111, 112, 101, 114, 116, 121]
  const INDEX: JsString := [105, 110, 100, 101, 120]
  const OPERATOR: JsString := [111, 112, 101, 114, 97, 116, 111, 114]
  const OPERAND: JsString := [111, 112, 101, 114, 97, 110, 100]
  const LEFT: JsString := [108, 101, 102, 116]
  const RIGHT: JsString := [114, 105, 103, 104, 116]

  function ScalarJson(scalar: Scalar): Json {
    match scalar
    case NullScalar => JNull
    case BoolScalar(b) => JBool(b)
    case NumberScalar(n) => JNumber(n)
    case StringScalar(s) => JString(s)
  }

  function UnaryText(op: UnaryOperator): JsString {
    match op
    case Not => [33]
    case Plus => [43]
    case Minus => [45]
  }

  function BinaryText(op: BinaryOperator): JsString {
    match op
    case Equal => [61, 61, 61]
    case NotEqual => [33, 61, 61]
    case Less => [60]
    case LessEqual => [60, 61]
    case Greater => [62]
    case GreaterEqual => [62, 61]
    case And => [38, 38]
    case Or => [124, 124]
    case Add => [43]
    case Subtract => [45]
    case Multiply => [42]
    case Divide => [47]
    case Remainder => [37]
    case Power => [42, 42]
  }

  lemma {:induction false} BinaryTextsDiffer(a: BinaryOperator, b: BinaryOperator)
    requires BinaryText(a) == BinaryText(b)
    ensures a == b
  {
    var x, y := BinaryText(a), BinaryText(b);
    assert |x| == |y| && x[0] == y[0];
  }

  lemma {:induction false} UnaryTextsDiffer(a: UnaryOperator, b: UnaryOperator)
    requires UnaryText(a) == UnaryText(b)
    ensures a == b
  {
    assert UnaryText(a)[0] == UnaryText(b)[0];
  }

  function Kind(p: Predicate): JsString {
    match p
    case Literal(_) => [108, 105, 116, 101, 114, 97, 108]
    case Input(_) => [105, 110, 112, 117, 116]
    case Property(_, _) => PROPERTY
    case Index(_, _) => INDEX
    case Unary(_, _) => [117, 110, 97, 114, 121]
    case Binary(_, _, _) => [98, 105, 110, 97, 114, 121]
  }

  lemma {:induction false} KindsDiffer(p: Predicate, q: Predicate)
    requires Kind(p) == Kind(q)
    ensures p.Literal? == q.Literal? && p.Input? == q.Input? && p.Property? == q.Property?
    ensures p.Index? == q.Index? && p.Unary? == q.Unary? && p.Binary? == q.Binary?
  {
    var a, b := Kind(p), Kind(q);
    assert |a| == |b| && a[0] == b[0] && a[1] == b[1];
  }

  function Fields(p: Predicate): (r: seq<Member>)
    ensures |r| >= 2 && r[0] == Member(NODE, JString(Kind(p)))
    decreases p, 0
  {
    match p
    case Literal(value) => [Member(NODE, JString(Kind(p))), Member(VALUE, ScalarJson(value))]
    case Input(name) => [Member(NODE, JString(Kind(p))), Member(NAME, JString(name))]
    case Property(base, property) =>
      [Member(NODE, JString(Kind(p))), Member(BASE, Encoded(base)), Member(PROPERTY, JString(property))]
    case Index(base, index) =>
      [Member(NODE, JString(Kind(p))), Member(BASE, Encoded(base)), Member(INDEX, Encoded(index))]
    case Unary(op, operand) =>
      [Member(NODE, JString(Kind(p))), Member(OPERATOR, JString(UnaryText(op))), Member(OPERAND, Encoded(operand))]
    case Binary(op, left, right) =>
      [Member(NODE, JString(Kind(p))), Member(OPERATOR, JString(BinaryText(op))), Member(LEFT, Encoded(left)),
        Member(RIGHT, Encoded(right))]
  }

  function Encoded(p: Predicate): Json
    decreases p, 1
  {
    JObject(Fields(p))
  }

  lemma {:induction false} FieldNamesDiffer(p: Predicate)
    ensures DistinctNames(Fields(p))
  {
    var fields := Fields(p);
    assert NODE[0] == 110 && NAME[1] == 97 && VALUE[0] == 118 && BASE[0] == 111 && PROPERTY[0] == 112
      && INDEX[0] == 105;
    assert OPERATOR[0] == 111 && |OPERATOR| == 8 && OPERAND[0] == 111 && |OPERAND| == 7 && LEFT[0] == 108
      && RIGHT[0] == 114;
    assert NODE[1] == 111;
    if p.Binary? {
      assert fields[0].name == NODE && fields[1].name == OPERATOR && fields[2].name == LEFT && fields[3].name == RIGHT;
    } else {
      assert fields[0].name == NODE && |fields| <= 3;
    }
  }

  /** Equal objects agree on the field at a position where their names agree. */
  lemma {:induction false} FieldAgrees(p: Predicate, q: Predicate, i: nat)
    requires SameJson(Encoded(p), Encoded(q)) && i < |Fields(p)| && i < |Fields(q)|
    requires Fields(p)[i].name == Fields(q)[i].name
    ensures SameJson(Fields(p)[i].value, Fields(q)[i].value)
  {
    FieldNamesDiffer(q);
    assert HasSame(Fields(p)[i], Fields(q));
    var j :| 0 <= j < |Fields(q)| && Fields(q)[j].name == Fields(p)[i].name
      && SameJson(Fields(p)[i].value, Fields(q)[j].value);
    assert j == i;
  }

  lemma {:induction false} SameKind(p: Predicate, q: Predicate)
    requires SameJson(Encoded(p), Encoded(q))
    ensures Kind(p) == Kind(q)
  {
    FieldAgrees(p, q, 0);
  }

  lemma {:induction false} BinaryPartsAgree(p: Predicate, q: Predicate)
    requires p.Binary? && q.Binary? && SameJson(Encoded(p), Encoded(q))
    ensures p.binary == q.binary && SameJson(Encoded(p.left), Encoded(q.left))
    ensures SameJson(Encoded(p.right), Encoded(q.right))
  {
    FieldAgrees(p, q, 1);
    FieldAgrees(p, q, 2);
    FieldAgrees(p, q, 3);
    BinaryTextsDiffer(p.binary, q.binary);
  }

  lemma {:induction false} UnaryPartsAgree(p: Predicate, q: Predicate)
    requires p.Unary? && q.Unary? && SameJson(Encoded(p), Encoded(q))
    ensures p.unary == q.unary && SameJson(Encoded(p.operand), Encoded(q.operand))
  {
    FieldAgrees(p, q, 1);
    FieldAgrees(p, q, 2);
    UnaryTextsDiffer(p.unary, q.unary);
  }

  lemma {:induction false} AccessPartsAgree(p: Predicate, q: Predicate)
    requires ((p.Property? && q.Property?) || (p.Index? && q.Index?)) && SameJson(Encoded(p), Encoded(q))
    ensures SameJson(Encoded(p.base), Encoded(q.base))
    ensures p.Property? ==> p.property == q.property
    ensures p.Index? ==> SameJson(Encoded(p.index), Encoded(q.index))
  {
    FieldAgrees(p, q, 1);
    FieldAgrees(p, q, 2);
  }

  lemma {:induction false} ScalarsAgree(a: Scalar, b: Scalar)
    requires SameJson(ScalarJson(a), ScalarJson(b))
    ensures a == b
  {
  }

  lemma {:induction false} LiteralsAgree(p: Predicate, q: Predicate)
    requires p.Literal? && q.Literal? && SameJson(Encoded(p), Encoded(q))
    ensures p == q
  {
    FieldAgrees(p, q, 1);
    ScalarsAgree(p.value, q.value);
  }

  lemma {:induction false} InputsAgree(p: Predicate, q: Predicate)
    requires p.Input? && q.Input? && SameJson(Encoded(p), Encoded(q))
    ensures p == q
  {
    FieldAgrees(p, q, 1);
  }

  /** Equal JSON forms come from equal predicates. */
  lemma {:induction false} FormsIdentifyPredicates(p: Predicate, q: Predicate)
    requires SameJson(Encoded(p), Encoded(q))
    ensures p == q
  {
    SameKind(p, q);
    KindsDiffer(p, q);
    match p
    case Literal(_) => LiteralsAgree(p, q);
    case Input(_) => InputsAgree(p, q);
    case Property(base, _) =>
      AccessPartsAgree(p, q);
      FormsIdentifyPredicates(base, q.base);
    case Index(base, index) =>
      AccessPartsAgree(p, q);
      FormsIdentifyPredicates(base, q.base);
      FormsIdentifyPredicates(index, q.index);
    case Unary(_, operand) =>
      UnaryPartsAgree(p, q);
      FormsIdentifyPredicates(operand, q.operand);
    case Binary(_, left, right) =>
      BinaryPartsAgree(p, q);
      FormsIdentifyPredicates(left, q.left);
      FormsIdentifyPredicates(right, q.right);
  }

  // ----- what the forms spell out

  /** The text of every operator. */
  lemma {:induction false} OperatorTextsAre()
    ensures UnaryText(Not) == Text("!") && UnaryText(Plus) == Text("+") && UnaryText(Minus) == Text("-")
    ensures BinaryText(Equal) == Text("===") && BinaryText(NotEqual) == Text("!==")
    ensures BinaryText(Less) == Text("<") && BinaryText(LessEqual) == Text("<=")
    ensures BinaryText(Greater) == Text(">") && BinaryText(GreaterEqual) == Text(">=")
    ensures BinaryText(And) == Text("&&") && BinaryText(Or) == Text("||")
    ensures BinaryText(Add) == Text("+") && BinaryText(Subtract) == Text("-") && BinaryText(Multiply) == Text("*")
    ensures BinaryText(Divide) == Text("/") && BinaryText(Remainder) == Text("%") && BinaryText(Power) == Text("**")
  {
  }

  /** The names of the parts. */
  lemma {:induction false} NamesAre()
    ensures NODE == Text("node") && VALUE == Text("value") && NAME == Text("name") && BASE == Text("object")
    ensures PROPERTY == Text("property") && INDEX == Text("index") && OPERATOR == Text("operator")
    ensures OPERAND == Text("operand") && LEFT == Text("left") && RIGHT == Text("right")
  {
  }

  /** The form of every kind of predicate, part by part. */
  lemma {:induction false} FormsAre(p: Predicate)
    ensures p.Literal? ==>
              Encoded(p) == JObject([Member(Text("node"), JString(Text("literal"))),
                Member(Text("value"), ScalarJson(p.value))])
    ensures p.Input? ==>
              Encoded(p) == JObject([Member(Text("node"), JString(Text("input"))),
                Member(Text("name"), JString(p.name))])
    ensures p.Property? ==>
              Encoded(p) == JObject([Member(Text("node"), JString(Text("property"))),
                Member(Text("object"), Encoded(p.base)),
                                     Member(Text("property"), JString(p.property))])
    ensures p.Index? ==>
              Encoded(p) == JObject([Member(Text("node"), JString(Text("index"))),
                Member(Text("object"), Encoded(p.base)),
                                     Member(Text("index"), Encoded(p.index))])
    ensures p.Unary? ==>
              Encoded(p) == JObject([Member(Text("node"), JString(Text("unary"))),
                                     Member(Text("operator"), JString(UnaryText(p.unary))),
                                     Member(Text("operand"), Encoded(p.operand))])
    ensures p.Binary? ==>
              Encoded(p) == JObject([Member(Text("node"), JString(Text("binary"))),
                                     Member(Text("operator"), JString(BinaryText(p.binary))),
                                     Member(Text("left"), Encoded(p.left)), Member(Text("right"), Encoded(p.right))])
  {
    NamesAre();
    KindsAre(p);
  }

  lemma {:induction false} KindsAre(p: Predicate)
    ensures Kind(p) == match p
                       case Literal(_) => Text("literal")
                       case Input(_) => Text("input")
                       case Property(_, _) => Text("property")
                       case Index(_, _) => Text("index")
                       case Unary(_, _) => Text("unary")
                       case Binary(_, _, _) => Text("binary")
  {
  }
}
