/** UpdateProductCommandValidator: four independent field rules, each
    reporting its own failure, evaluated in declaration order. */
module ProductValidation {
  import opened Common
  import opened Entities
  import opened ProductCommands

  const NameMaxLength: int := 200
  const DescriptionMaxLength: int := 1000

  /** `char.IsWhiteSpace`: the Unicode separators (Zs, Zl, Zp) and the
      control characters U+0009 to U+000D, U+0085. */
  predicate IsWhiteSpace(c: char) {
    var u := c as int;
    || 0x09 <= u <= 0x0D || u == 0x20 || u == 0x85 || u == 0xA0 || u == 0x1680
    || 0x2000 <= u <= 0x200A || u == 0x2028 || u == 0x2029 || u == 0x202F
    || u == 0x205F || u == 0x3000
  }

  /** What NotEmpty rejects for a string: empty, or white space only. */
  predicate IsEmptyOrWhiteSpace(s: string) {
    forall i :: 0 <= i < |s| ==> IsWhiteSpace(s[i])
  }

  /** The validator's rules, in declaration order. */
  datatype Rule = IdNotEmpty | NameNotEmpty | NameMaximumLength | DescriptionMaximumLength | PriceGreaterThanZero

  function Position(r: Rule): nat {
    match r
    case IdNotEmpty => 0
    case NameNotEmpty => 1
    case NameMaximumLength => 2
    case DescriptionMaximumLength => 3
    case PriceGreaterThanZero => 4
  }

  /** The failure each rule reports. The Id rule keeps NotEmpty's default
      message; the others carry their own. */
  function FailureOf(r: Rule): ValidationFailure {
    match r
    case IdNotEmpty => ValidationFailure("Id", "'Id' must not be empty.")
    case NameNotEmpty => ValidationFailure("Name", "Name is required.")
    case NameMaximumLength => ValidationFailure("Name", "Name must not exceed 200 characters.")
    case DescriptionMaximumLength => ValidationFailure("Description", "Description must not exceed 1000 characters.")
    case PriceGreaterThanZero => ValidationFailure("Price", "Price must be greater than 0.")
  }

  /** Different rules report different failures, so a failure names its rule. */
  lemma FailureOfInjective(a: Rule, b: Rule)
    ensures FailureOf(a) == FailureOf(b) <==> a == b
  {
  }

  /** Whether the command breaks the rule. */
  predicate Breaks(c: UpdateProductCommand, r: Rule) {
    match r
    case IdNotEmpty => c.id == 0
    case NameNotEmpty => IsEmptyOrWhiteSpace(c.name)
    case NameMaximumLength => |c.name| > NameMaxLength
    case DescriptionMaximumLength => |c.description| > DescriptionMaxLength
    case PriceGreaterThanZero => c.price <= 0.0
  }

  /** A command every rule accepts: a non-default Id (negative ones too), a
      Name with a non-white character and at most 200 characters, a
      Description of at most 1000 characters (empty is fine), a positive
      Price. */
  predicate IsValidCommand(c: UpdateProductCommand) {
    && c.id != 0
    && !IsEmptyOrWhiteSpace(c.name)
    && |c.name| <= NameMaxLength
    && |c.description| <= DescriptionMaxLength
    && c.price > 0.0
  }

  function Check(c: UpdateProductCommand, r: Rule): seq<Rule> {
    if Breaks(c, r) then [r] else []
  }

  /** The rules the command breaks, in declaration order. Rules do not stop
      one another: a Name of 201 spaces breaks both Name rules. */
  function BrokenRules(c: UpdateProductCommand): (rules: seq<Rule>)
    ensures rules == [] <==> IsValidCommand(c)
    ensures forall r :: r in rules <==> Breaks(c, r)
    ensures forall i, j :: 0 <= i < j < |rules| ==> Position(rules[i]) < Position(rules[j])
  {
    Check(c, IdNotEmpty) + Check(c, NameNotEmpty) + Check(c, NameMaximumLength)
      + Check(c, DescriptionMaximumLength) + Check(c, PriceGreaterThanZero)
  }

  /** UpdateProductCommandValidator.Validate: one failure per broken rule,
      in declaration order. */
  function Validate(c: UpdateProductCommand): (errors: seq<ValidationFailure>)
    ensures errors == [] <==> IsValidCommand(c)
    ensures |errors| == |BrokenRules(c)|
    ensures forall i :: 0 <= i < |errors| ==> errors[i] == FailureOf(BrokenRules(c)[i])
  {
    var rules := BrokenRules(c);
    seq(|rules|, i requires 0 <= i < |rules| => FailureOf(rules[i]))
  }

  /** A rule's failure is among the errors exactly when the command breaks
      that rule, and no failure is reported twice. */
  lemma ValidateReportsEachRule(c: UpdateProductCommand)
    ensures forall r :: FailureOf(r) in Validate(c) <==> Breaks(c, r)
    ensures forall i, j :: 0 <= i < j < |Validate(c)| ==> Validate(c)[i] != Validate(c)[j]
  {
    var errors := Validate(c);
    var rules := BrokenRules(c);
    forall r ensures FailureOf(r) in errors <==> Breaks(c, r) {
      if FailureOf(r) in errors {
        var i :| 0 <= i < |errors| && errors[i] == FailureOf(r);
        FailureOfInjective(rules[i], r);
      }
      if Breaks(c, r) {
        var i :| 0 <= i < |rules| && rules[i] == r;
        assert errors[i] == FailureOf(r);
      }
    }
    forall i, j | 0 <= i < j < |errors| ensures errors[i] != errors[j] {
      FailureOfInjective(rules[i], rules[j]);
    }
  }

  /** The boundary cases the rules draw: a Name of exactly 200 characters,
      an empty Description and a negative Id all pass. */
  lemma ValidationBoundaries(c: UpdateProductCommand)
    requires c.id < 0 && |c.name| == NameMaxLength && c.name[0] == 'x'
    requires c.description == [] && c.price > 0.0
    ensures Validate(c) == []
  {
    assert !IsWhiteSpace(c.name[0]);
  }

  /** The Update handler does not consult the validator: a command the
      validator rejects is still written when its product exists. */
  lemma HandlerWritesInvalidCommand(products: map<int, Product>, c: UpdateProductCommand, now: Time)
    requires c.id in products && Validate(c) != []
    ensures ProductUpdate(products, c, now).0
    ensures ProductUpdate(products, c, now).1[c.id].name == c.name
    ensures ProductUpdate(products, c, now).1[c.id].price == c.price
  {
  }
}
