/** The search compiler: rules become SQL text with positional binds, and the text, read
    back by SQL's grammar, means what the rules say. */
module Search {
  import opened Text
  import opened Like
  import opened SqlExpr

  datatype SearchRule = SearchRule(field: string, operator: string, value: string, connector: string, negate: bool)

  /** The allowlist of searchable fields. */
  datatype Field =
    | Path | UserId | GroupId | User | Group | FileType | SizeBytes | MTime | ATime | CTime
    | DirTotalSize | DirFileCount
    | DirMTimeFirst | DirMTimeLast | DirATimeFirst | DirATimeLast | DirCTimeFirst | DirCTimeLast
  {
    predicate Numeric() {
      !(Path? || User? || Group?)
    }

    predicate SizeHuman() {
      SizeBytes? || DirTotalSize?
    }

    function Column(): string {
      match this
      case Path => "f.path"
      case UserId => "f.uid"
      case GroupId => "f.gid"
      case User => "u.name"
      case Group => "g.name"
      case FileType => "f.file_type"
      case SizeBytes => "f.size_bytes"
      case MTime => "f.mtime"
      case ATime => "f.atime"
      case CTime => "f.ctime"
      case DirTotalSize => "s.total_size_bytes"
      case DirFileCount => "s.file_count"
      case DirMTimeFirst => "s.mtime_first"
      case DirMTimeLast => "s.mtime_last"
      case DirATimeFirst => "s.atime_first"
      case DirATimeLast => "s.atime_last"
      case DirCTimeFirst => "s.ctime_first"
      case DirCTimeLast => "s.ctime_last"
    }
  }

  datatype SearchError =
    | UnknownField(field: string)
    | InvalidValue(column: string)
    | NumericOperator(operator: string)
    | TextOperator(operator: string)

  /** Reading a number out of a rule's value: plain, or with a size unit. */
  type NumberParser = (bool, string) -> Option<int>

  function FieldOf(name: string): Option<Field> {
    match name
    case "path" => Some(Path)
    case "uid" => Some(UserId)
    case "gid" => Some(GroupId)
    case "user" => Some(User)
    case "group" => Some(Group)
    case "file_type" => Some(FileType)
    case "size_bytes" => Some(SizeBytes)
    case "mtime" => Some(MTime)
    case "atime" => Some(ATime)
    case "ctime" => Some(CTime)
    case "dir_total_size" => Some(DirTotalSize)
    case "dir_file_count" => Some(DirFileCount)
    case "dir_mtime_first" => Some(DirMTimeFirst)
    case "dir_mtime_last" => Some(DirMTimeLast)
    case "dir_atime_first" => Some(DirATimeFirst)
    case "dir_atime_last" => Some(DirATimeLast)
    case "dir_ctime_first" => Some(DirCTimeFirst)
    case "dir_ctime_last" => Some(DirCTimeLast)
    case _ => None
  }

  // ----- compiling one rule ------------------------------------------------------------------

  /** A predicate on one column and the value it binds. */
  datatype Condition = Condition(column: string, op: Op, bind: SqlValue)

  function NumericOp(operator: string): Option<Op> {
    if operator == "equals" then Some(Eq)
    else if operator == "not_equals" then Some(Ne)
    else if operator == "gt" then Some(Gt)
    else if operator == "lt" then Some(Lt)
    else None
  }

  function TextCondition(column: string, operator: string, value: string): Option<Condition> {
    match operator
    case "equals" => Some(Condition(column, Eq, Text(value)))
    case "contains" => Some(Condition(column, ILikeOp, Text("%" + EscapeLike(value) + "%")))
    case "starts_with" => Some(Condition(column, ILikeOp, Text(EscapeLike(value) + "%")))
    case "ends_with" => Some(Condition(column, ILikeOp, Text("%" + EscapeLike(value))))
    case "regex" => Some(Condition(column, RegexOp, Text(value)))
    case "regex_i" => Some(Condition(column, IRegexOp, Text(value)))
    case _ => None
  }

  function ConditionOf(parse: NumberParser, f: Field, operator: string, value: string): Result<Condition, SearchError> {
    if f.Numeric() then
      match parse(f.SizeHuman(), value)
      case None => Err(InvalidValue(f.Column()))
      case Some(n) =>
        match NumericOp(operator)
        case None => Err(NumericOperator(operator))
        case Some(op) => Ok(Condition(f.Column(), op, Num(n)))
    else
      match TextCondition(f.Column(), operator, value)
      case None => Err(TextOperator(operator))
      case Some(c) => Ok(c)
  }

  function CompileRule(parse: NumberParser, rule: SearchRule): Result<Condition, SearchError> {
    match FieldOf(rule.field)
    case None => Err(UnknownField(rule.field))
    case Some(field) => ConditionOf(parse, field, rule.operator, rule.value)
  }

  /** strings.EqualFold(connector, "OR") */
  predicate IsOr(connector: string) {
    |connector| == 2 && connector[0] in {'o', 'O'} && connector[1] in {'r', 'R'}
  }

  datatype Item = Item(isOr: bool, cond: Condition, negate: bool)

  predicate Compiles(parse: NumberParser, rules: seq<SearchRule>) {
    forall rule | rule in rules :: CompileRule(parse, rule).Ok?
  }

  function ItemsOf(parse: NumberParser, rules: seq<SearchRule>): (items: seq<Item>)
    requires Compiles(parse, rules)
    ensures |items| == |rules|
    ensures forall i | 0 <= i < |items| ::
              items[i] == Item(IsOr(rules[i].connector), CompileRule(parse, rules[i]).value, rules[i].negate)
  {
    seq(|rules|, i requires 0 <= i < |rules| =>
      Item(IsOr(rules[i].connector), CompileRule(parse, rules[i]).value, rules[i].negate))
  }

  function Binds(items: seq<Item>): seq<SqlValue> {
    seq(|items|, i requires 0 <= i < |items| => items[i].cond.bind)
  }

  // ----- the emitted text -----------------------------------------------------------------------

  function ComparisonText(column: string, op: Op, n: nat): string {
    column + (" " + (Symbol(op) + (" " + ("$" + Dec(n)))))
  }

  function ConditionText(c: Condition, n: nat): string {
    "(" + (ComparisonText(c.column, c.op, n) + ")")
  }

  /** `(NOT COALESCE(<cond>, FALSE))` */
  function Negated(cond: string): string {
    "(" + ("NOT" + (" " + ("COALESCE" + ("(" + (cond + ("," + (" " + ("FALSE" + (")" + ")")))))))))
  }

  function RuleText(item: Item, n: nat): string {
    if item.negate then Negated(ConditionText(item.cond, n)) else ConditionText(item.cond, n)
  }

  function ConnectorWord(item: Item): string {
    if item.isOr then "OR" else "AND"
  }

  /** Rule i binds parameter i + 1; the first rule's connector is ignored. */
  function WhereText(items: seq<Item>): string {
    if items == [] then ""
    else
      var n := |items|;
      WhereText(items[..n - 1])
      + (if n > 1 then " " + ConnectorWord(items[n - 1]) + " " else "")
      + RuleText(items[n - 1], n)
  }

  /** The bind list the builders share by reference. */
  class ArgList {
    var values: seq<SqlValue>

    constructor ()
      ensures values == []
    {
      values := [];
    }
  }

  method BuildCondition(parse: NumberParser, f: Field, operator: string, value: string, args: ArgList)
    returns (r: Result<string, SearchError>)
    modifies args
    ensures match ConditionOf(parse, f, operator, value)
            case Ok(c) => args.values == old(args.values) + [c.bind] && r == Ok(ConditionText(c, |args.values|))
            case Err(e) => args.values == old(args.values) && r == Err(e)
  {
    if f.Numeric() {
      var n := parse(f.SizeHuman(), value);
      if n.None? { return Err(InvalidValue(f.Column())); }
      var op := NumericOp(operator);
      if op.None? { return Err(NumericOperator(operator)); }
      args.values := args.values + [Num(n.value)];
      return Ok("(" + (ComparisonText(f.Column(), op.value, |args.values|) + ")"));
    }
    var op := Eq;
    match operator {
      case "equals" => args.values := args.values + [Text(value)];
      case "contains" => args.values := args.values + [Text("%" + EscapeLike(value) + "%")]; op := ILikeOp;
      case "starts_with" => args.values := args.values + [Text(EscapeLike(value) + "%")]; op := ILikeOp;
      case "ends_with" => args.values := args.values + [Text("%" + EscapeLike(value))]; op := ILikeOp;
      case "regex" => args.values := args.values + [Text(value)]; op := RegexOp;
      case "regex_i" => args.values := args.values + [Text(value)]; op := IRegexOp;
      case _ => return Err(TextOperator(operator));
    }
    r := Ok("(" + (ComparisonText(f.Column(), op, |args.values|) + ")"));
  }

  /** What compiling one more rule adds. */
  lemma CompileStep(parse: NumberParser, rules: seq<SearchRule>, i: nat)
    requires i < |rules| && Compiles(parse, rules[..i]) && CompileRule(parse, rules[i]).Ok?
    ensures Compiles(parse, rules[..i + 1])
    ensures var before, after := ItemsOf(parse, rules[..i]), ItemsOf(parse, rules[..i + 1]);
            && WhereText(after) == WhereText(before) + (if i > 0 then " " + ConnectorWord(after[i]) + " " else "")
                                   + RuleText(after[i], i + 1)
            && Binds(after) == Binds(before) + [CompileRule(parse, rules[i]).value.bind]
  {
    ItemsStep(parse, rules, i);
    TextStep(ItemsOf(parse, rules[..i + 1]));
  }

  lemma ItemsStep(parse: NumberParser, rules: seq<SearchRule>, i: nat)
    requires i < |rules| && Compiles(parse, rules[..i]) && CompileRule(parse, rules[i]).Ok?
    ensures Compiles(parse, rules[..i + 1])
    ensures var before, after := ItemsOf(parse, rules[..i]), ItemsOf(parse, rules[..i + 1]);
            && after[..i] == before && after[i].cond == CompileRule(parse, rules[i]).value
            && Binds(after) == Binds(before) + [CompileRule(parse, rules[i]).value.bind]
  {
    assert rules[..i + 1] == rules[..i] + [rules[i]];
  }

  lemma TextStep(items: seq<Item>)
    requires items != []
    ensures var i := |items| - 1;
            WhereText(items) == WhereText(items[..i]) + (if i > 0 then " " + ConnectorWord(items[i]) + " " else "")
                                + RuleText(items[i], i + 1)
  {
  }

  ghost predicate FirstBad(parse: NumberParser, rules: seq<SearchRule>, e: SearchError) {
    exists i :: 0 <= i < |rules| && Compiles(parse, rules[..i]) && CompileRule(parse, rules[i]) == Err(e)
  }

  lemma BadRuleStops(parse: NumberParser, rules: seq<SearchRule>, i: nat)
    requires i < |rules| && Compiles(parse, rules[..i]) && CompileRule(parse, rules[i]).Err?
    ensures FirstBad(parse, rules, CompileRule(parse, rules[i]).error) && !Compiles(parse, rules)
  {
    assert rules[i] in rules;
  }

  /** The rule loop: all or nothing, the first offending rule names the error. */
  method BuildSearchWhere(parse: NumberParser, rules: seq<SearchRule>)
    returns (r: Result<string, SearchError>, args: ArgList)
    ensures fresh(args)
    ensures r.Ok? <==> Compiles(parse, rules)
    ensures r.Ok? ==> r.value == WhereText(ItemsOf(parse, rules)) && args.values == Binds(ItemsOf(parse, rules))
    ensures r.Err? ==> FirstBad(parse, rules, r.error)
  {
    args := new ArgList();
    var sb := "";
    for i := 0 to |rules|
      invariant Compiles(parse, rules[..i])
      invariant sb == WhereText(ItemsOf(parse, rules[..i]))
      invariant args.values == Binds(ItemsOf(parse, rules[..i]))
    {
      var rule := rules[i];
      var field := FieldOf(rule.field);
      if field.None? {
        BadRuleStops(parse, rules, i);
        return Err(UnknownField(rule.field)), args;
      }
      var built := BuildCondition(parse, field.value, rule.operator, rule.value, args);
      if built.Err? {
        BadRuleStops(parse, rules, i);
        return Err(built.error), args;
      }
      CompileStep(parse, rules, i);
      var cond := built.value;
      if rule.negate { cond := Negated(cond); }
      if i > 0 {
        var connector := "AND";
        if IsOr(rule.connector) { connector := "OR"; }
        sb := sb + (" " + connector + " ");
      }
      sb := sb + cond;
    }
    assert rules[..|rules|] == rules;
    r := Ok(sb);
  }
}
