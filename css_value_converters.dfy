/**
 * The two terminal-token value converters of the CSS grammar's value converter
 * service: HASH_ID (tokens such as `#foo`) and DOT_ID (tokens such as `.bar`).
 *
 * Each converter is an anonymous, field-less implementation of a two-method
 * conversion interface. Both directions are single expressions without state,
 * so they are modelled as functions. A converter is selected by its grammar
 * rule; the host diagnostic node passed to `toValue` is never read, so it is a
 * parameter of an arbitrary type `N` that nothing constrains.
 */
module CSSValueConverterService {

  /** The grammar rules a converter is registered for. */
  datatype Rule = HashId | DotId

  /** The one-character prefix that the rule's `toString` puts in front of a value. */
  function Affix(rule: Rule): char
  {
    match rule
    case HashId => '#'
    case DotId => '.'
  }

  /**
   * `toString(value)`: the token text for a semantic value, which is the rule's
   * prefix followed by the value unchanged.
   */
  function ToString(rule: Rule, value: string): (token: string)
    ensures |token| == |value| + 1
    ensures token[0] == Affix(rule)
    ensures token[1..] == value
  {
    match rule
    case HashId => "#" + value
    case DotId => "." + value
  }

  /**
   * `toValue(string, node)`: the token text with its first character removed.
   * The first character is not compared with the rule's prefix, and `node` is
   * not read. The precondition stands for the out-of-range failure of taking
   * the substring from index 1 of an empty string.
   */
  function ToValue<N>(rule: Rule, token: string, node: N): (value: string)
    requires |token| >= 1
    ensures |value| == |token| - 1
    ensures forall i :: 0 <= i < |value| ==> value[i] == token[i + 1]
  {
    match rule
    case HashId => token[1..]
    case DotId => token[1..]
  }

  /** The two rules have different prefixes. */
  lemma AffixInjective(r1: Rule, r2: Rule)
    ensures Affix(r1) == Affix(r2) <==> r1 == r2
  {
  }

  /** Value to token to value gives back every value, the empty one included. */
  lemma RoundTripValue<N>(rule: Rule, value: string, node: N)
    ensures ToValue(rule, ToString(rule, value), node) == value
  {
  }

  /** Token to value to token gives back every token that starts with the rule's prefix. */
  lemma RoundTripToken<N>(rule: Rule, token: string, node: N)
    requires |token| >= 1 && token[0] == Affix(rule)
    ensures ToString(rule, ToValue(rule, token, node)) == token
  {
  }

  /**
   * A token that starts with some other character is accepted as well; writing
   * its value back replaces that character by the rule's prefix.
   */
  lemma RoundTripTokenOtherFirstChar<N>(rule: Rule, token: string, node: N)
    requires |token| >= 1 && token[0] != Affix(rule)
    ensures ToString(rule, ToValue(rule, token, node)) == [Affix(rule)] + token[1..]
    ensures ToString(rule, ToValue(rule, token, node)) != token
  {
  }

  /**
   * `toValue` depends on the token text only: the rule whose converter is used
   * and the node passed in make no difference.
   */
  lemma ToValueIgnoresRuleAndNode<N>(token: string, r1: Rule, r2: Rule, n1: N, n2: N)
    requires |token| >= 1
    ensures ToValue(r1, token, n1) == ToValue(r2, token, n2)
  {
  }

  /**
   * The tokens that `toValue` maps to a given value are exactly that value with
   * any one character in front of it.
   */
  lemma ToValuePreimage<N>(rule: Rule, token: string, value: string, node: N)
    requires |token| >= 1
    ensures ToValue(rule, token, node) == value <==> exists c :: token == [c] + value
  {
    if ToValue(rule, token, node) == value {
      assert token == [token[0]] + value;
    }
  }

  /**
   * No token is written for two different values, and the two rules never write
   * the same token.
   */
  lemma ToStringInjective(r1: Rule, v1: string, r2: Rule, v2: string)
    ensures ToString(r1, v1) == ToString(r2, v2) <==> r1 == r2 && v1 == v2
  {
  }

  /** The concrete conversions of the two rules. */
  lemma Examples<N>(node: N)
    ensures ToString(HashId, "foo") == "#foo"
    ensures ToValue(HashId, "#foo", node) == "foo"
    ensures ToString(DotId, "bar") == ".bar"
    ensures ToValue(DotId, ".bar", node) == "bar"
    ensures ToValue(HashId, "bar", node) == "ar"
    ensures ToValue(HashId, ".foo", node) == "foo"
    ensures ToString(HashId, "") == "#" && ToValue(DotId, ".", node) == ""
  {
  }
}

/**
 * A hardened variant of the two converters that is NOT the behaviour of the
 * converter service above: it rejects an empty token, a token whose first
 * character is not the rule's prefix, and a value that already starts with the
 * prefix, each with its own error, where the service either fails on the empty
 * substring or silently converts. It is kept here to state how the two relate.
 */
module HardenedAffixConverter {
  import opened CSSValueConverterService

  datatype ConversionError<N> =
    | EmptyToken
    | AffixMismatch(token: string, node: N)
    | MalformedValue(value: string)

  datatype Result<T, E> = Ok(value: T) | Err(error: E)

  /** A value is well formed for a rule when it does not start with the rule's prefix. */
  predicate WellFormedValue(rule: Rule, value: string)
  {
    |value| == 0 || value[0] != Affix(rule)
  }

  /** A token is well formed for a rule when it is the rule's prefix followed by a value. */
  predicate WellFormedToken(rule: Rule, token: string)
  {
    |token| >= 1 && token[0] == Affix(rule)
  }

  /** Checked `toString`: refuses a value that would come out double-prefixed. */
  function CheckedToString<N>(rule: Rule, value: string): (r: Result<string, ConversionError<N>>)
    ensures r.Ok? <==> WellFormedValue(rule, value)
    ensures r.Ok? ==> r.value == ToString(rule, value)
    ensures r.Err? ==> r.error == MalformedValue(value)
  {
    if WellFormedValue(rule, value) then Ok(ToString(rule, value)) else Err(MalformedValue(value))
  }

  /**
   * Checked `toValue`: defined for every token; where the unchecked conversion
   * is defined and the prefix matches, it gives the same value.
   */
  function CheckedToValue<N>(rule: Rule, token: string, node: N): (r: Result<string, ConversionError<N>>)
    ensures r == Err(EmptyToken) <==> |token| == 0
    ensures r.Ok? <==> WellFormedToken(rule, token)
    ensures r.Ok? ==> r.value == ToValue(rule, token, node)
    ensures |token| >= 1 && token[0] != Affix(rule) ==> r == Err(AffixMismatch(token, node))
  {
    if |token| == 0 then Err(EmptyToken)
    else if token[0] != Affix(rule) then Err(AffixMismatch(token, node))
    else Ok(ToValue(rule, token, node))
  }

  /** Checked value to token to value succeeds on every well-formed value and gives it back. */
  lemma CheckedRoundTripValue<N>(rule: Rule, value: string, node: N)
    requires WellFormedValue(rule, value)
    ensures CheckedToString<N>(rule, value).Ok?
    ensures CheckedToValue(rule, CheckedToString<N>(rule, value).value, node) == Ok(value)
  {
  }

  /**
   * Checked token to value to token succeeds on every well-formed token whose
   * value is well formed too, and gives the token back.
   */
  lemma CheckedRoundTripToken<N>(rule: Rule, token: string, node: N)
    requires WellFormedToken(rule, token) && WellFormedValue(rule, token[1..])
    ensures CheckedToValue(rule, token, node).Ok?
    ensures CheckedToString<N>(rule, CheckedToValue(rule, token, node).value) == Ok(token)
  {
    RoundTripToken(rule, token, node);
  }

  /** The mismatch scenario: the hash converter refuses a dot token. */
  lemma CheckedMismatchExample<N>(node: N)
    ensures CheckedToValue(HashId, ".foo", node) == Err(AffixMismatch(".foo", node))
    ensures CheckedToValue(HashId, "bar", node) == Err(AffixMismatch("bar", node))
    ensures CheckedToValue<N>(HashId, "", node) == Err(EmptyToken)
  {
  }
}
