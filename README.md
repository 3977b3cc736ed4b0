# CSS value converters: HASH_ID and DOT_ID

The CSS grammar's value converter service registers two terminal-token
converters. The HASH_ID converter turns a semantic value such as `foo` into the
token text `#foo` (`toString`) and turns token text back into a value by
dropping its first character (`toValue`). The DOT_ID converter does the same
with `.` as the prefix. This project models both converters as Dafny functions
in module `CSSValueConverterService`, selected by a `Rule` (`HashId` or
`DotId`), and proves their round-trip laws.

Two things the model keeps from the code:

- `toValue` does not check that the first character is the prefix; it drops
  whatever character is there (`ToValue(HashId, "bar", n) == "ar"`).
- `toValue` never reads its node argument. The node is a parameter of an
  arbitrary type `N` that the model never constrains.

`toValue` on an empty string fails in the source because the substring from
index 1 is out of range. The model states this as the precondition
`|token| >= 1`, not as a returned error.

Module `HardenedAffixConverter` is a separate, hardened variant. It is NOT what
the source does. It rejects an empty token, a token with the wrong prefix, and a
value that already starts with the prefix, each with its own error. It is proved
to agree with the source's converters wherever its input is well formed.

Both converters are anonymous classes without fields. Each call is a single
expression, so the Dafny functions are deterministic and stateless by
construction: equal inputs give equal outputs.

## Model

| member | source | states |
|---|---|---|
| CSSValueConverterService.ToString | nl.dslmeinte.xtext.css/src/nl/dslmeinte/xtext/css/services/CSSValueConverterService.java:14-16 | HASH_ID `toString`: the token is one longer than the value, starts with `#`, and is followed by the value unchanged |
| CSSValueConverterService.ToValue | nl.dslmeinte.xtext.css/src/nl/dslmeinte/xtext/css/services/CSSValueConverterService.java:18-20 | `toValue` needs a non-empty token; the result is one shorter, and its character i is the token's character i+1 |
| CSSValueConverterService.AffixInjective | nl.dslmeinte.xtext.css/src/nl/dslmeinte/xtext/css/services/CSSValueConverterService.java:15 | the two rules' prefixes differ, so a prefix identifies its rule |
| CSSValueConverterService.RoundTripValue | nl.dslmeinte.xtext.css/src/nl/dslmeinte/xtext/css/services/CSSValueConverterService.java:14-20 | value to token to value gives back every value, the empty one included, for both rules |
| CSSValueConverterService.RoundTripToken | nl.dslmeinte.xtext.css/src/nl/dslmeinte/xtext/css/services/CSSValueConverterService.java:28-34 | token to value to token gives back every token that starts with the rule's prefix, for both rules |
| CSSValueConverterService.RoundTripTokenOtherFirstChar | nl.dslmeinte.xtext.css/src/nl/dslmeinte/xtext/css/services/CSSValueConverterService.java:32-34 | a token with another first character is still converted; writing the value back puts the rule's prefix in place of that character, so the token is not recovered |
| CSSValueConverterService.ToValueIgnoresRuleAndNode | nl.dslmeinte.xtext.css/src/nl/dslmeinte/xtext/css/services/CSSValueConverterService.java:32-34 | the two `toValue` bodies are the same function of the token alone; neither the rule nor the node changes the result |
| CSSValueConverterService.ToValuePreimage | nl.dslmeinte.xtext.css/src/nl/dslmeinte/xtext/css/services/CSSValueConverterService.java:19 | `toValue` maps a token to a value exactly when the token is that value with any one character in front |
| CSSValueConverterService.ToStringInjective | nl.dslmeinte.xtext.css/src/nl/dslmeinte/xtext/css/services/CSSValueConverterService.java:28-30 | two `toString` calls give the same token exactly when rule and value are both the same |
| CSSValueConverterService.Examples | nl.dslmeinte.xtext.css/src/nl/dslmeinte/xtext/css/services/CSSValueConverterService.java:10-36 | `#foo` and `.bar` convert both ways; HASH_ID `toValue` gives `ar` for `bar` and `foo` for `.foo`; the empty value gives the prefix alone |
| HardenedAffixConverter.CheckedToString | nl.dslmeinte.xtext.css/src/nl/dslmeinte/xtext/css/services/CSSValueConverterService.java:14-16 | hardened variant, not the source: succeeds exactly for values that do not start with the prefix, and then agrees with `toString`; otherwise a malformed-value error |
| HardenedAffixConverter.CheckedToValue | nl.dslmeinte.xtext.css/src/nl/dslmeinte/xtext/css/services/CSSValueConverterService.java:18-20 | hardened variant, not the source: an empty-token error exactly for the empty token; succeeds exactly for tokens that start with the prefix, and then agrees with `toValue`; otherwise a mismatch error carrying the token and the node |
| HardenedAffixConverter.CheckedRoundTripValue | nl.dslmeinte.xtext.css/src/nl/dslmeinte/xtext/css/services/CSSValueConverterService.java:14-20 | hardened variant: value to token to value succeeds on every well-formed value and gives it back |
| HardenedAffixConverter.CheckedRoundTripToken | nl.dslmeinte.xtext.css/src/nl/dslmeinte/xtext/css/services/CSSValueConverterService.java:28-34 | hardened variant: token to value to token succeeds on every well-formed token whose value is well formed, and gives it back |
| HardenedAffixConverter.CheckedMismatchExample | nl.dslmeinte.xtext.css/src/nl/dslmeinte/xtext/css/services/CSSValueConverterService.java:32-34 | hardened variant: the hash converter refuses `.foo` and `bar` with a mismatch error and `""` with an empty-token error, where the source would return `foo`, return `ar`, and fail |

## Left out

- The annotation-driven registration of the two converters under the rule
  names `HASH_ID` and `DOT_ID` is framework wiring. The `Rule` datatype stands in for it.
- The converters inherited from `DefaultTerminalConverters` (ID, STRING, INT and
  others) and the `IValueConverter` interface live in a library that is not part
  of this model.
- The node type `INode` belongs to the host framework. It is never read, so it is a type parameter.
- Strings are `seq<char>`. Java's `substring(1)` removes one UTF-16 code unit,
  not one code point; surrogate pairs are not modelled.
- Java `null` is not modelled. In the source, `toString(null)` gives `#null`
  or `.null` and `toValue(null, node)` throws; the model's values are never null.
- ToValue: the out-of-range failure on an empty token is a precondition, not a
  modelled exception.
