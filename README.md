# CPF validation and input masks of the event-registration form

This project models the two pieces of domain logic in a client-side
event-registration form:

- the CPF validator `validateCPF` (src/lib/cpf-validator.ts). A CPF is the
  Brazilian individual taxpayer number. The validator keeps only the ASCII
  digits of its input. It rejects anything that is not exactly eleven digits.
  It rejects one digit repeated eleven times. Then it recomputes the two check
  digits with weighted sums modulo 11;
- the two display masks `formatCPF` and `formatPhone`, and the phone-field
  pattern `^\(\d{2}\)\s\d{4,5}-\d{4}$` (src/components/ContactForm.tsx).

Modules:

- `DigitStrip` (digits.dfy): the digit projection `Digits`, which models
  `replace(/\D/g, "")`, with `DigitValue`, which models `parseInt` of one digit.
  It also holds the lemmas about how the projection behaves under
  concatenation and inserted separators.
- `CpfValidator` (cpf_validator.dfy): the method `ValidateCPF`. It follows
  the source line by line: the two `for` loops accumulate `sum`, and `sum` and
  `remainder` are reassigned. Its postcondition ties it to the specification
  predicate `IsValidCPF`, which is built from `WeightedSum` and `CheckDigit`.
  The module's lemmas are about that predicate. They include an independent
  textbook formula for the check digit (ascending weights, then `% 11 % 10`),
  proved equal to the validator's formula.
- `InputMasks` (input_masks.dfy): `FormatCPF`, `FormatPhone`, the phone
  pattern `IsPhoneFormat` and the placeholder shape `IsMaskedCPF`. Each mask
  first strips to digits. It then rewrites the first match of a non-global,
  unanchored pattern. On an all-digit string that match can only start at
  position 0, and only when enough digits exist. The model writes that out as
  slices, with the remaining digits kept after the rewritten part.
- `CpfVectors` (cpf_vectors.dfy): reference inputs and their verdicts.

Every function is total: no member has a failure path, and each answer is a
function of its input alone.

Details of the JavaScript semantics:

- `%` is applied only to non-negative sums (`WeightedSum` proves `r >= 0`).
  There, JavaScript's truncating remainder and Dafny's Euclidean one agree.
- JavaScript measures `length` in UTF-16 code units, and Dafny's `char` is a
  Unicode scalar value. After stripping, only ASCII digits remain, so both
  lengths equal `|Digits(s)|`. A character outside the BMP is removed either
  way.
- `\s` is modelled as ECMAScript's whole WhiteSpace and LineTerminator
  class (`IsRegexSpace`), not just the space character. The phone mask
  always writes U+0020, which belongs to that class.

## Model

| member | source | states |
|---|---|---|
| DigitStrip.DigitValue | src/lib/cpf-validator.ts:14 | `parseInt` of a digit character lies in 0..9 |
| DigitStrip.Digits | src/lib/cpf-validator.ts:3 | stripping `\D` leaves only digits and never lengthens the string |
| DigitStrip.DigitsConcat | src/lib/cpf-validator.ts:3 | stripping distributes over concatenation |
| DigitStrip.NonDigitVanishes | src/lib/cpf-validator.ts:3 | a single non-digit strips to nothing |
| DigitStrip.InsertNonDigit | src/lib/cpf-validator.ts:3 | inserting a non-digit anywhere leaves the stripped string unchanged |
| DigitStrip.DigitsOfDigitString | src/lib/cpf-validator.ts:3 | a string of digits strips to itself |
| DigitStrip.DigitsFixedPointIff | src/lib/cpf-validator.ts:3 | a string strips to itself exactly when it is all digits |
| DigitStrip.AppendGroup | src/components/ContactForm.tsx:55 | appending a separator and a digit group to a masked prefix adds exactly that group to the digits |
| CpfValidator.WeightedSum | src/lib/cpf-validator.ts:12-15 | the loop's sum, with positive weights, is never negative, so the source's `%` is the Euclidean remainder |
| CpfValidator.CheckDigit | src/lib/cpf-validator.ts:17-18 | a remainder below 2 gives 0, otherwise 11 minus it; either way the check digit is in 0..9 (same rule at lines 28-29) |
| CpfValidator.ValidateCPF | src/lib/cpf-validator.ts:1-32 | the imperative validator, with both loops, answers exactly `IsValidCPF`: eleven digits, not all equal, digit 9 and digit 10 equal to their check digits |
| CpfValidator.FirstLoopSum | src/lib/cpf-validator.ts:12-15 | the first loop's sum is digits 0..8 weighted 10 down to 2 |
| CpfValidator.SecondLoopSum | src/lib/cpf-validator.ts:23-26 | the second loop's sum is digits 0..9 weighted 11 down to 2 |
| CpfValidator.WrongLengthRejected | src/lib/cpf-validator.ts:3-6 | any input whose digits are not exactly eleven, the empty string included, is rejected |
| CpfValidator.RepeatedDigitPassesChecksum | src/lib/cpf-validator.ts:9-31 | eleven copies of any digit satisfy both check-digit equations, so only the repeated-digit guard rejects them |
| CpfValidator.RepeatedDigitRejected | src/lib/cpf-validator.ts:9 | eleven copies of one digit are rejected |
| CpfValidator.ProjectionDecides | src/lib/cpf-validator.ts:3 | two inputs with the same digits get the same answer |
| CpfValidator.SameAsStripped | src/lib/cpf-validator.ts:3 | an input and its stripped digits get the same answer |
| CpfValidator.SeparatorInsensitive | src/lib/cpf-validator.ts:3 | inserting a separator anywhere never changes the answer |
| CpfValidator.ValidIff | src/lib/cpf-validator.ts:12-31 | accepted iff eleven digits, not all equal, digit 9 is the check digit of digits 0..8 alone and digit 10 that of digits 0..9 alone |
| CpfValidator.CheckDigitMatchesAscendingForm | src/lib/cpf-validator.ts:12-29 | the descending-weight rule equals the textbook form: ascending weights, sum `% 11 % 10` |
| CpfVectors.ValidVector1 | src/lib/cpf-validator.ts:1-32 | "52998224725" is accepted (sums 295 and 347) |
| CpfVectors.ValidVector2 | src/lib/cpf-validator.ts:1-32 | "11144477735" is accepted (sums 162 and 204) |
| CpfVectors.InvalidVectorChecksum | src/lib/cpf-validator.ts:23-31 | "12345678900" is rejected: check digits 0 and 9, but digit 10 is 0 |
| CpfVectors.InvalidVectorsShape | src/lib/cpf-validator.ts:6-9 | "11111111111" and "" are rejected |
| CpfVectors.CpfMaskVector | src/components/ContactForm.tsx:53-56 | the CPF mask shows "52998224725" as "529.982.247-25" |
| CpfVectors.ValidVectorMasked | src/components/ContactForm.tsx:23 | "529.982.247-25" is accepted by the validator |
| CpfVectors.PhoneVector | src/components/ContactForm.tsx:177 | the phone mask shows "11999999999" as the placeholder shape "(11) 99999-9999", which the pattern accepts |
| InputMasks.FormatCPF | src/components/ContactForm.tsx:53-56 | fewer than eleven digits come back bare; eleven or more gain exactly three separators |
| InputMasks.FormatPhone | src/components/ContactForm.tsx:58-64 | fewer than ten digits come back bare; ten give 14 characters; eleven or more gain exactly four characters |
| InputMasks.CpfMaskDigits | src/components/ContactForm.tsx:55 | the `$1.$2.$3-$4` rewrite keeps every digit in order |
| InputMasks.PhoneMaskDigits | src/components/ContactForm.tsx:61-63 | the `($1) $2-$3` rewrite, with a middle group of 4 or 5, keeps every digit in order |
| InputMasks.FormatCPFKeepsDigits | src/components/ContactForm.tsx:53-56 | the digits of the CPF mask's output are the digits of its input |
| InputMasks.FormatPhoneKeepsDigits | src/components/ContactForm.tsx:58-64 | the digits of the phone mask's output are the digits of its input |
| InputMasks.FormatCPFElevenDigits | src/components/ContactForm.tsx:55 | eleven digits become `ddd.ddd.ddd-dd`, 14 characters, which fits the field's `maxLength={14}` (line 154) |
| InputMasks.FormatCPFMaskedIff | src/components/ContactForm.tsx:53-56 | the output has the placeholder shape exactly when the input has eleven digits |
| InputMasks.FormatPhoneTenDigits | src/components/ContactForm.tsx:60-61 | ten digits become `(dd) dddd-dddd`, which the line-27 pattern accepts |
| InputMasks.FormatPhoneElevenDigits | src/components/ContactForm.tsx:63 | eleven digits become `(dd) ddddd-dddd`, which the line-27 pattern accepts and which fits `maxLength={15}` |
| InputMasks.FormatPhoneAcceptedIff | src/components/ContactForm.tsx:27 | the phone mask's output satisfies the phone pattern exactly when the input has ten or eleven digits |
| InputMasks.FormatCPFIdempotent | src/components/ContactForm.tsx:53-56 | masking twice gives the same as masking once |
| InputMasks.FormatPhoneIdempotent | src/components/ContactForm.tsx:58-64 | masking twice gives the same as masking once |
| InputMasks.FormatCPFKeepsValidity | src/components/ContactForm.tsx:23 | the validator gives a masked CPF the same answer as the raw input |
| InputMasks.MaskedCPFIsFixedPoint | src/components/ContactForm.tsx:53-56 | a value already shaped `ddd.ddd.ddd-dd` is left unchanged |
| InputMasks.FormattedPhoneIsFixedPoint | src/components/ContactForm.tsx:58-64 | a value already matching the phone pattern, with a plain space, is left unchanged |

## Left out

- The React component body of src/components/ContactForm.tsx: the `useState`/`useForm`/`setValue` state, the JSX and the toasts. This is UI plumbing with no logic of its own.
- `onSubmit` and the insert into the hosted database table: asynchronous network I/O against a backend that is not visible here.
- The schema library's `.trim()`, `.email()`, `.min` and `.max` checks. Their semantics live in a third-party library. Only the line-27 phone pattern is restated, as `IsPhoneFormat`, applied to an already-trimmed value.
- src/integrations/supabase/types.ts (generated type declarations) and vite.config.ts (build configuration): neither holds logic.
- The general semantics of `String.prototype.replace` with a regular expression. The masks are modelled only on the all-digit strings they actually receive. There, the first match can only start at position 0.
- ValidateCPF: the digit stripping at line 3 is a call to the function `Digits` rather than a loop. In the source it is a single regular-expression replace, not a loop.
