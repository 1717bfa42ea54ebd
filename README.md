# User registration domain, in Dafny

This project models the domain layer of a small TypeScript user-registration
code base and proves properties of it. That layer has these parts:

- value objects that validate themselves: `Email`, `UserName` and `UserId`,
  all built on a shared `ValueObject` base;
- the `User` entity composed from them;
- the deterministic mock anti-spam adapter.

Everything in this core is a pure computation except the anti-spam check's
loop. So:

- Value objects are Dafny subset types of `Common.ValueObject<string>`. The
  subset constraint is the class invariant: an Email that is not a valid,
  normalised address cannot exist, just as the TypeScript constructor throws.
- A throwing constructor is a function returning
  `Wrappers.Result`. A failure carries the exact error message.
- `Email.create` and `UserName.create` only call the constructor, so each
  of those pairs is one Dafny function (`Emails.Create`, `UserNames.Create`).
  `UserId.create` first replaces a falsy id with a generated one, so it is
  its own function, `UserIds.Create`, beside the constructor `UserIds.New`.
- `isBlocked` is a `method` with the source's `for` loop. It is proved
  against the specification predicate `AntiSpam.Blocked`.

Two further modules model JavaScript built-ins:

- **JsString** models `trim`, the regular-expression class `\s`,
  `toLowerCase`/`toUpperCase`, `includes`, `split`, `join` and hexadecimal
  digits. The white-space set is JavaScript's WhiteSpace and LineTerminator
  code points.
- **JsonString** models `JSON.stringify` on a string, as in the abstract
  operation QuoteJSONString of ECMA-262. It also gives a decoder, used to
  prove the encoding injective. That is why `ValueObject.equals` on strings
  is plain string equality.

The clock is a parameter `now`. `crypto.randomUUID` becomes the version 4
formatting (section 4.4 of RFC 4122) of sixteen random bytes supplied by the
caller. The model proves that this formatting always passes `UserId`
validation.

## Model

| member | source | states |
|---|---|---|
| Common.GetValueIsConstructorArgument | src/shared/types/common.ts:11-17 | `getValue` returns exactly the value the object was built from |
| Common.EqualsIsEquivalence | src/shared/types/common.ts:19-21 | for any serialiser, `equals` is reflexive, symmetric and transitive |
| Common.StringEqualsIffSameValue | src/shared/types/common.ts:19-21 | for string value objects, `equals` holds iff the wrapped strings are identical |
| JsonString.UnescapeEscape | src/shared/types/common.ts:20 | decoding the JSON string encoding of `s` gives back `s` |
| JsonString.StringifyInjective | src/shared/types/common.ts:20 | `JSON.stringify(a) === JSON.stringify(b)` iff `a == b` |
| JsString.Utf16Length | src/domain/value-objects/email.ts:23-24 | `length` counts UTF-16 code units: at least one and at most two per character |
| JsString.Utf16LengthOfBmp | src/domain/value-objects/email.ts:23-24 | a string of characters up to U+FFFF has one code unit per character |
| JsString.Utf16LengthAppend | src/domain/value-objects/email.ts:24 | the code-unit length of a concatenation is the sum of the lengths |
| JsString.Utf16LengthOfAstral | src/domain/value-objects/email.ts:24 | a string of characters above U+FFFF has two code units per character |
| JsString.Trim | src/domain/value-objects/email.ts:12 | the result is a slice of the input with only white space around it, and it neither starts nor ends with white space |
| JsString.TrimOfTrimmed | src/domain/value-objects/user-name.ts:12-16 | trimming a trimmed string changes nothing |
| JsString.TrimIgnoresPadding | src/domain/value-objects/user-name.ts:16 | added white space on either side does not change the trimmed result |
| JsString.ToLowerSpec | src/domain/value-objects/email.ts:12 | the lower-cased string has no upper-case letter; a string without upper-case letters is its own lower case |
| JsString.TrimCommutesWithLower | src/domain/value-objects/email.ts:12 | trimming and lower-casing can be done in either order |
| JsString.IncludesIffOccurs | src/domain/value-objects/email.ts:7 | `includes(p)` holds iff `p` occurs at some index |
| JsString.SplitPieces | src/domain/value-objects/email.ts:35 | `split(c)` gives one piece more than there are `c`s, and no piece contains `c` |
| JsString.JoinSplit | src/domain/value-objects/email.ts:34-40 | joining the pieces of `split(c)` with `c` gives back the string |
| JsString.SplitJoin | src/domain/value-objects/user-name.ts:27 | splitting a join of pieces that do not contain the separator gives back the pieces |
| JsString.JoinLast | src/domain/value-objects/user-name.ts:31-32 | the last piece of a join of several pieces follows the last separator |
| Emails.Create | src/domain/value-objects/email.ts:10-18 | construction (and `create`) succeeds iff `isValid(lower(trim(raw)))`; it stores exactly `lower(trim(raw))` and otherwise fails with `Invalid email format: <raw>` |
| Emails.HasConsecutiveDotsIff | src/domain/value-objects/email.ts:6-8 | `hasConsecutiveDots` holds iff two dots stand side by side somewhere |
| Emails.LengthOutOfRangeIsInvalid | src/domain/value-objects/email.ts:23-24 | the empty string and strings over 254 UTF-16 code units are invalid |
| Emails.AstralCharactersCountTwice | src/domain/value-objects/email.ts:24 | 126 characters above U+FFFF followed by `@b.c` (130 characters, 256 code units) are invalid |
| Emails.ConsecutiveDotsAreInvalid | src/domain/value-objects/email.ts:25 | a string with `..` anywhere is invalid |
| Emails.ShapeMatchesPattern | src/domain/value-objects/email.ts:4 | the hand-written shape check accepts exactly the strings that `/^[^\s@]+@[^\s@]+\.[^\s@]+$/` accepts |
| Emails.InnerDotMatchesDomainPattern | src/domain/value-objects/email.ts:4 | for a domain without `@` or white space, an inner dot is exactly the pattern `[^\s@]+\.[^\s@]+` |
| Emails.ValidIffPattern | src/domain/value-objects/email.ts:20-28 | `isValid` is exactly: length 1 to 254 UTF-16 code units, no `..`, and the regular expression |
| Emails.ValidAddressStructure | src/domain/value-objects/email.ts:26 | a valid address has exactly one `@`, no white space, a non-empty local part and a domain `X.Y` with `X` and `Y` non-empty |
| Emails.NormalizeIdempotent | src/domain/value-objects/email.ts:12 | trimming and lower-casing twice gives the same as once |
| Emails.StoredValueIsCanonical | src/domain/value-objects/email.ts:12-17 | a stored address has no upper-case letter and no white space, and building an Email from it gives the same Email |
| Emails.EqualsIffSameNormalForm | src/domain/value-objects/email.ts:10-17 | two Emails built from inputs are `equals` iff the inputs normalise to the same address |
| Emails.CaseAndPaddingDoNotMatter | src/domain/value-objects/email.ts:12 | inputs that differ only in ASCII case and surrounding white space give `equals` Emails |
| Emails.LocalPartAndDomain | src/domain/value-objects/email.ts:34-40 | `getLocalPart() + "@" + getDomain()` is the address; neither part holds `@`; the local part is non-empty and the domain has an inner dot |
| UserNames.Create | src/domain/value-objects/user-name.ts:8-24 | construction (and `create`) succeeds iff `isValid(name)`; it stores `trim(name)` with case unchanged and otherwise fails with `Invalid user name: <name>` |
| UserNames.NameLengthIsCodeUnits | src/domain/value-objects/user-name.ts:17-19 | on a name that matches the pattern, the code-unit `length` equals the character count, so the 2 to 50 bound may be checked on characters |
| UserNames.StoredValueIsCanonical | src/domain/value-objects/user-name.ts:12-20 | the stored text is itself valid, and building a UserName from it gives the same UserName |
| UserNames.PaddingDoesNotMatter | src/domain/value-objects/user-name.ts:12-16 | white space around a name changes neither the outcome nor the stored name |
| UserNames.FirstNameSpec | src/domain/value-objects/user-name.ts:26-28 | the first name has no space; it is the text before the first space, or the whole name when there is none |
| UserNames.LastNameSpec | src/domain/value-objects/user-name.ts:30-33 | the last name is empty iff the name has no space; otherwise it is the non-empty, space-free text after the last space |
| UserNames.InitialsOfNonEmpty | src/domain/value-objects/user-name.ts:36-39 | `map(charAt(0).toUpperCase()).join('')` gives one character per non-empty token, in order: the token's first character upper-cased |
| UserNames.InitialsSpec | src/domain/value-objects/user-name.ts:35-40 | the initials of a name: one per non-empty space-separated token, in order, none a lower-case letter |
| UserNames.TwoWordCreateExample | src/domain/value-objects/user-name.ts:8-13 | `mary jane` is accepted and stored as it is |
| UserNames.TwoWordExample | src/domain/value-objects/user-name.ts:26-40 | `mary jane` has first name `mary`, last name `jane` and initials `MJ` |
| UserNames.OneWordExample | src/domain/value-objects/user-name.ts:26-40 | `Cher` has first name `Cher`, no last name and initials `C` |
| UserNames.DoubleSpaceExample | src/domain/value-objects/user-name.ts:26-40 | `Ann  Lee` (two spaces) has initials `AL`: the empty token gives nothing |
| UserIds.New | src/domain/value-objects/user-id.ts:7-12 | construction succeeds iff `isValid(id)`, stores the id verbatim, and otherwise fails with `Invalid UserId format: <id>` |
| UserIds.ValidIffPositional | src/domain/value-objects/user-id.ts:14-16 | validity, character by character: 36 characters, hyphens at 8, 13, 18 and 23, version 1 to 5 at 14, variant `8`, `9`, `a`, `b` (either case) at 19, hex digits of either case elsewhere |
| UserIds.ValidFromGroups | src/domain/value-objects/user-id.ts:5 | five hex groups of lengths 8-4-4-4-12, with an allowed version and variant digit, joined by hyphens, form a valid id |
| UserIds.HexCaseMatters | src/domain/value-objects/user-id.ts:11 | upper-casing one hex letter of a valid id gives a valid id that is not `equals` to the first |
| UserIds.Create | src/domain/value-objects/user-id.ts:18-20 | an absent or empty id falls back to the generator and cannot fail; any other id goes to the constructor |
| UserIds.FormatV4Spec | src/domain/value-objects/user-id.ts:23 | the version 4 formatting of any sixteen bytes is a valid id, lower case, with version `4` and variant `8`, `9`, `a` or `b` |
| UserIds.Generate | src/domain/value-objects/user-id.ts:22-24 | `generate` always yields a valid UserId: the formatting of the random bytes |
| UserIds.GeneratedIdIsVersion4 | src/domain/value-objects/user-id.ts:22-24 | a generated id is a lower-case version 4 UUID of the RFC 4122 variant |
| Users.Create | src/domain/entities/user.ts:17-30 | the new user has the given email and name and both timestamps equal to `now`; its id is the one given, or else a generated one |
| Users.Reconstitute | src/domain/entities/user.ts:32-55 | every getter of the reconstituted user returns the corresponding field of the props |
| Users.ReconstituteRoundTrip | src/domain/entities/user.ts:32-55 | reconstituting from a user's props, or from its getters, gives back the same user |
| Users.User.UpdateEmail | src/domain/entities/user.ts:58-64 | the copy has the new email and `updatedAt == now`; id, name and `createdAt` are unchanged |
| Users.User.UpdateName | src/domain/entities/user.ts:66-72 | the copy has the new name and `updatedAt == now`; id, email and `createdAt` are unchanged |
| Users.EqualsIffSameId | src/domain/entities/user.ts:74-79 | `equals(other)` holds iff `other` is a User with the same id string; email, name and timestamps play no part |
| Users.OtherEntityNeverEquals | src/domain/entities/user.ts:75-77 | an entity that is not a User is never `equals` to a user, even with the same id |
| Users.EqualsIsEquivalence | src/domain/entities/user.ts:74-79 | `equals` is reflexive, symmetric and transitive on users |
| Users.UpdatesKeepIdentity | src/domain/entities/user.ts:58-79 | a user updated by `updateEmail` or `updateName` is `equals` to the original, in both directions |
| Users.CreatedUsersEqualIffSameId | src/domain/entities/user.ts:74-79 | users created with given ids are `equals` iff the ids are the same, whatever their other fields |
| Users.User.ToJson | src/domain/entities/user.ts:81-89 | the JSON object holds the `getValue()` strings of id, email and name, and the two timestamps |
| Users.ToJsonInjective | src/domain/entities/user.ts:81-89 | users with the same JSON object are the same user |
| AntiSpam.DomainField | src/infrastructure/external-services/mock-anti-spam.adapter.ts:35 | `email.split('@')[1]` exists iff the address contains `@` |
| AntiSpam.IsBlocked | src/infrastructure/external-services/mock-anti-spam.adapter.ts:26-42 | the loop with its early return answers exactly the rule `Blocked`: a pattern occurs, or the domain field is non-empty and on the list |
| AntiSpam.NoAtNeverBlocked | src/infrastructure/external-services/mock-anti-spam.adapter.ts:28-41 | an address without `@` is never blocked |
| AntiSpam.PatternAnywhereBlocks | src/infrastructure/external-services/mock-anti-spam.adapter.ts:28-32 | an address with `blocked@` or `spam@` anywhere in it is blocked |
| AntiSpam.BlockedDomainBlocks | src/infrastructure/external-services/mock-anti-spam.adapter.ts:35-38 | `local@domain` with a listed domain is blocked |
| AntiSpam.PatternAtTheAt | src/infrastructure/external-services/mock-anti-spam.adapter.ts:28-32 | in an address with one `@`, a pattern `X@` occurs iff the local part ends with `X` |
| AntiSpam.SingleAtRule | src/infrastructure/external-services/mock-anti-spam.adapter.ts:17-41 | an address with one `@` is blocked iff its local part ends with `blocked` or `spam`, or its domain is exactly one of the listed domains |
| AntiSpam.BlockedPatternExample | src/infrastructure/external-services/mock-anti-spam.adapter.ts:28-32 | `blocked@foo.com` is blocked |
| AntiSpam.SpamSuffixExample | src/infrastructure/external-services/mock-anti-spam.adapter.ts:28-32 | `antispam@x.com` is blocked |
| AntiSpam.BlockedDomainExample | src/infrastructure/external-services/mock-anti-spam.adapter.ts:35-38 | `x@spam.com` is blocked |
| AntiSpam.AllowedExample | src/infrastructure/external-services/mock-anti-spam.adapter.ts:26-42 | `ok@good.com` is not blocked |
| AntiSpam.UpperCaseDomainExample | src/infrastructure/external-services/mock-anti-spam.adapter.ts:36 | `a@spam.COM` is not blocked: domains compare case-sensitively |
| AntiSpam.SubDomainExample | src/infrastructure/external-services/mock-anti-spam.adapter.ts:36 | `a@mail.spam.com` is not blocked: domains compare exactly |

## Left out

- Case mapping covers the ASCII letters only. `toLowerCase`/`toUpperCase` leave every other character unchanged, unlike JavaScript's full Unicode mapping.
- JavaScript strings are sequences of UTF-16 code units; here they are sequences of Unicode scalar values. Where the source reads `length`, the model counts code units (`JsString.Utf16Length`), so a character above U+FFFF counts two towards the 254 bound on emails. Lone surrogates cannot be written, so `JSON.stringify`'s escaping of them is not modelled.
- The `typeof(email) === "string"` guard of `isValid` (src/domain/value-objects/email.ts:22) is vacuous once the argument is typed `string`.
- A throwing constructor is a `Result`; the thrown `Error` object is its message only.
- The clock (`new Date()`) is the parameter `now`, a number of milliseconds. No claim is made that `updatedAt` grows, since the source only reads the clock again.
- `Date.toISOString` in `toJSON` is not modelled; the timestamps stay numbers.
- The operating system's random source is not modelled. `randomUUID` is the version 4 formatting of sixteen bytes the caller passes in.
- Emails.LocalPart, Emails.Domain, UserNames.FirstName, UserNames.LastName and UserNames.Initials carry no contract of their own; their properties are in the lemmas named in the table.
- The `async`/`Promise` wrapping of `isBlocked` is dropped: the method answers synchronously.
- Other implementations of the `Entity<UserId>` interface are represented by their id alone (`Users.EntityRef.OtherEntity`), enough for the `instanceof` test in `equals`.
- The real anti-spam adapter (HTTP `fetch`, JSON decoding, logging) is not part of this model.
- The anti-spam port and the user repository interface are not part of this model: they have no behaviour.
- Persistence and cross-user uniqueness of emails or ids have no implementation in the source and are not modelled.
