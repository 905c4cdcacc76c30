# EMail field of vcard2fritzXML, in Dafny

vcard2fritzXML converts vCard contacts into the phonebook XML that a FRITZ!Box
router imports. The class `EMail` holds a contact's one optional e-mail
address, together with two fixed XML attributes (`id = 0`,
`classifier = "private"`). Every write goes through one gate:

1. `trim` normalises the input. It strips the ends as Java's `String.trim` does,
   treating every character up to U+0020 as space. Then it deletes every tab,
   wherever it is.
2. `validateEmail` always accepts the empty string. Any other string is passed
   to Apache Commons Validator's `EmailValidator`.
3. `setEmail` stores the normalised value only if it passes the gate.
   Otherwise it keeps the old value and prints a diagnostic line.

`email.dfy` (module `MailField`) models this. The static helpers are functions:
`Trim` (built from `StripLeading`, `StripTrailing`, `JavaTrim` and `RemoveTabs`)
and `ValidateEmail`. The object is a class `EMail`. Its `email` field is the only
thing that changes; `id` and `classifier` are `const`. Every value-level
property is proved for all inputs.

`Assign(current, raw, validator)` is the value that `setEmail(raw)` leaves when
the field held `current`. `AssignAll` folds it over a sequence of calls.
`Storable` is the at-rest invariant: the value is empty, or it is normal (no
tab, no space at either end) and the validator accepts it. `StorableMeans`
shows that this is the same as "empty, or `trim` leaves it unchanged and the
validator accepts it". `Assign` and `AssignAll` preserve this invariant. The
`EMail` methods are specified through `Assign`.

The library validator's rules cannot be seen, so the model does not re-implement
them. A validator is a value of type `Validator = string -> bool`. Each `EMail`
object is given one when it is constructed and keeps it as a `const`. Every
result therefore holds for every possible validator. The diagnostic line that
`setEmail` prints becomes a returned `Report`: either `Accepted`, or
`Rejected(message)` with the exact text of the printed line.

The client methods `ScenarioEmpty`, `ScenarioPadded`, `ScenarioRejected`,
`ScenarioReplace` and `ScenarioRewrite` show what a caller can conclude from the
contracts alone. Examples: `"  alice@example.com\t"` is stored as
`"alice@example.com"`; a rejected address keeps the old one; `""` clears the
field; writing back `getEmail()` changes nothing.

## Model

| member | source | states |
|---|---|---|
| `MailField.StripLeading` | src/main/java/org/berkholz/vcard2fritzXML/EMail.java:118 | The leading-space half of `String.trim`: the result is no longer than the input and does not start with a character up to U+0020. |
| `MailField.StripLeadingSuffix` | src/main/java/org/berkholz/vcard2fritzXML/EMail.java:118 | What `StripLeading` keeps is a suffix of the input, and everything it drops is space. So it drops exactly the leading run of space. |
| `MailField.StripTrailing` | src/main/java/org/berkholz/vcard2fritzXML/EMail.java:118 | The trailing-space half of `String.trim`: the result is no longer than the input and does not end with a character up to U+0020. |
| `MailField.StripTrailingPrefix` | src/main/java/org/berkholz/vcard2fritzXML/EMail.java:118 | What `StripTrailing` keeps is a prefix of the input, and everything it drops is space. |
| `MailField.JavaTrim` | src/main/java/org/berkholz/vcard2fritzXML/EMail.java:118 | `email.trim()` returns either the empty string or a string whose first and last characters are above U+0020. |
| `MailField.JavaTrimInfix` | src/main/java/org/berkholz/vcard2fritzXML/EMail.java:118 | `email.trim()` is an infix of its input, and only space characters lie before and after it. |
| `MailField.JavaTrimEmpty` | src/main/java/org/berkholz/vcard2fritzXML/EMail.java:118 | `email.trim()` is empty exactly when every character of the input is up to U+0020. |
| `MailField.RemoveTabs` | src/main/java/org/berkholz/vcard2fritzXML/EMail.java:118 | `replace("\t", "")` leaves no tab anywhere and never lengthens the string. |
| `MailField.RemoveTabsMembers` | src/main/java/org/berkholz/vcard2fritzXML/EMail.java:118 | A character occurs in the result of `replace("\t", "")` exactly when it occurs in the input and is not a tab. |
| `MailField.RemoveTabsAppend` | src/main/java/org/berkholz/vcard2fritzXML/EMail.java:118 | Removing tabs commutes with concatenation, so the characters that are kept stay in their original order. |
| `MailField.RemoveTabsTabFree` | src/main/java/org/berkholz/vcard2fritzXML/EMail.java:118 | `replace("\t", "")` does not change a string that has no tab. |
| `MailField.RemoveTabsKeepsEnds` | src/main/java/org/berkholz/vcard2fritzXML/EMail.java:117-119 | Take a string that `String.trim` already left without space at its ends. Removing its tabs empties it only if it was empty, and keeps its first and last characters. |
| `MailField.Trim` | src/main/java/org/berkholz/vcard2fritzXML/EMail.java:109-119 | `EMail.trim` returns a normal string: no tab anywhere, not only at the ends, and no character up to U+0020 at either end. |
| `MailField.TrimEmpty` | src/main/java/org/berkholz/vcard2fritzXML/EMail.java:117-119 | `EMail.trim` returns "" exactly for inputs made only of spaces, tabs and other characters up to U+0020, including "". |
| `MailField.TrimFixedPoint` | src/main/java/org/berkholz/vcard2fritzXML/EMail.java:117-119 | `EMail.trim` leaves a string unchanged exactly when the string is normal. |
| `MailField.TrimPaddedTabs` | src/main/java/org/berkholz/vcard2fritzXML/EMail.java:117-119 | Spaces and tabs on both sides of an address that does not start or end with space are all dropped. Tabs inside the address are deleted and every other character stays in order. |
| `MailField.TrimIdempotent` | src/main/java/org/berkholz/vcard2fritzXML/EMail.java:117-119 | `trim(trim(s)) == trim(s)` for every `s`. |
| `MailField.StripLeadingPadded` | src/main/java/org/berkholz/vcard2fritzXML/EMail.java:118 | Put space in front of a string that does not start with space. Then `StripLeading` removes exactly that space. |
| `MailField.StripTrailingPadded` | src/main/java/org/berkholz/vcard2fritzXML/EMail.java:118 | Put space after a string that does not end with space. Then `StripTrailing` removes exactly that space. |
| `MailField.TrimPadded` | src/main/java/org/berkholz/vcard2fritzXML/EMail.java:117-119 | Any normal string wrapped in spaces and tabs on both sides trims back to itself. |
| `MailField.ValidateEmail` | src/main/java/org/berkholz/vcard2fritzXML/EMail.java:127-138 | `validateEmail("")` is true. For a non-empty argument, the result is exactly the library validator's verdict. |
| `MailField.StorableMeans` | src/main/java/org/berkholz/vcard2fritzXML/EMail.java:99-107 | The at-rest invariant means this: the value is empty, or `trim` leaves it unchanged and the validator accepts it. |
| `MailField.Assign` | src/main/java/org/berkholz/vcard2fritzXML/EMail.java:99-107 | After `setEmail(raw)` the value is either the old value or `trim(raw)`. A value satisfying the at-rest invariant is replaced only by another one that satisfies it. |
| `MailField.AssignBlank` | src/main/java/org/berkholz/vcard2fritzXML/EMail.java:99-107 | `setEmail` of a string made only of spaces and tabs, including "", leaves the value "". This holds whatever the old value was and whatever the validator says. |
| `MailField.AssignOwnValue` | src/main/java/org/berkholz/vcard2fritzXML/EMail.java:99-107 | If the value satisfies the at-rest invariant, writing it back with `setEmail` does not change it. |
| `MailField.RejectedAsWritten` | src/main/java/org/berkholz/vcard2fritzXML/EMail.java:101-106 | A normal, non-empty address that the validator rejects fails the gate after trimming too, so `setEmail` rejects it. |
| `MailField.AssignAll` | src/main/java/org/berkholz/vcard2fritzXML/EMail.java:99-107 | Any sequence of `setEmail` calls keeps the at-rest invariant. |
| `MailField.AssignAllLastAccepted` | src/main/java/org/berkholz/vcard2fritzXML/EMail.java:99-107 | After a sequence of `setEmail` calls, the value is `trim` of the last input that passed the gate. |
| `MailField.AssignAllNoneAccepted` | src/main/java/org/berkholz/vcard2fritzXML/EMail.java:99-107 | If no input in a sequence of `setEmail` calls passes the gate, the value is unchanged. |
| `MailField.EMail.constructor` | src/main/java/org/berkholz/vcard2fritzXML/EMail.java:54-59 | `new EMail()` gives an empty field with `id == 0` and `classifier == "private"`, and the invariant holds. |
| `MailField.EMail.WithAddress` | src/main/java/org/berkholz/vcard2fritzXML/EMail.java:66-74 | `new EMail(raw)` starts from "" and applies `setEmail(raw)`, with `id == 0` and `classifier == "private"`. The invariant holds afterwards. |
| `MailField.EMail.IsEmpty` | src/main/java/org/berkholz/vcard2fritzXML/EMail.java:81-83 | `isEmpty()` is true exactly when the stored address is "". |
| `MailField.EMail.GetEmail` | src/main/java/org/berkholz/vcard2fritzXML/EMail.java:90-92 | `getEmail()` returns the stored address. `trim` leaves that address unchanged and `validateEmail` accepts it. |
| `MailField.EMail.SetEmail` | src/main/java/org/berkholz/vcard2fritzXML/EMail.java:99-107 | If `trim(raw)` validates, it is stored. Otherwise the value is unchanged and `Rejected(Diagnostic(raw, trim(raw)))` is reported. `Diagnostic` is the exact line printed at EMail.java:105, naming `raw` and `trim(raw)`. The invariant is preserved, and `id` and `classifier` are constants. |
| `MailField.ScenarioRewrite` | src/main/java/org/berkholz/vcard2fritzXML/EMail.java:90-107 | On any field, `setEmail(getEmail())` leaves the stored address unchanged. |

## Left out

- The rules of `org.apache.commons.validator.routines.EmailValidator` (EMail.java:25, 133-136) are not modelled. They belong to a foreign library. The validator is an arbitrary `string -> bool` value, so every result holds for any validator.
- `MailField.EMail.constructor`, `MailField.EMail.WithAddress`: these take the validator as a parameter. The Java code instead asks for the process-wide `EmailValidator.getInstance()` on every call. The model assumes that this instance answers the same way for the object's whole life. `new EMail(raw)` prints the rejection line through `setEmail` (EMail.java:69, 105); `WithAddress` discards the `Report` its `SetEmail` call returns, so that line is not observable from the constructor.
- `MailField.EMail.SetEmail`: in Java this returns `void` and writes the rejection line to standard output with `System.out.println`. The model returns that line as `Rejected(message)` and does not model the output stream.
- The JAXB annotations and the XML binding (EMail.java:20-24, 38-48) are not modelled. They only declare how the three fields are serialised and contain no logic.
- `null` arguments are not modelled. In Java, `trim(null)` and `setEmail(null)` throw. A Dafny `string` is never null.
- Java strings are sequences of UTF-16 code units; Dafny `char` is a Unicode scalar value. Only characters up to U+0020 are compared, so `trim` behaves the same either way.
- `id` is a boxed `Integer` in Java and an `int` here. It never takes any value other than 0.
- The javadoc of `trim` (EMail.java:110-116) speaks of "white spaces and tabulators". The code strips every character up to U+0020 from the ends, control characters included, and the model follows the code.
