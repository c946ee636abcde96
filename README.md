# Student data entry: a verified model of the form's record-keeping core

The repository is one React component, `DataEntry`, a form for entering,
editing, filtering and deleting student records. Under its markup sits a small
core, and this project models that core in Dafny:

- **Grade derivation** (`grading.dfy`, module `Grading`). `calculatePercentage`
  sums five marks, divides by 5 and rounds to two decimals. `calculateDivision`
  maps the percentage to First, Second, Third or Fail. The marks are exact reals,
  so the percentage is an exact real rounded to hundredths.
- **Validator** (`validation.dfy`, module `Validation`). `validate` builds an
  error map over `name`, `age` and `mark0` to `mark4`. Every rule is checked and
  none short-circuits. The form is valid exactly when the map is empty.
  `Validate` makes the two field checks and calls `AddMarkErrors`, the loop
  that stands for the `forEach` over the marks. `Errors` is the function that
  specifies both.
- **Roster** (`roster.dfy`, module `Roster`). Records are kept in insertion
  order and keyed by `id`. The module has the record a submit builds, the
  replace-by-id of an update, the remove-by-id of a delete, `find`, and the
  filtered view. Each comes with lemmas about what it keeps and what it changes.
- **Component state** (`data_entry.dfy`, class `DataEntryForm.DataEntry`). The
  class holds `students`, the draft `name` / `age` / `marks`, `editingId`,
  `search`, `filterDivision` and `errors`. Its methods are the handlers
  `handleSubmit`, `resetForm`, `editStudent` and `deleteStudent`, plus the
  fields' `onChange` setters. Each handler is one atomic state change. `Valid()`
  is the invariant every handler keeps: five mark fields, unique positive ids,
  and records whose percentage and division match their marks.
- Helpers: `text.dfy` (`trim`, `toLowerCase`, `includes`), `sequences.dfy`
  (`Array.prototype.map`, "order-preserving subsequence"), and `wrappers.dfy`
  (`Option`).

JavaScript's number conversions are not modelled character by character. The
handlers take them as a parameter `lib: NumberSyntax` that bundles `parseInt`,
`parseFloat` and the two `toString`s. A `NaN` result is `None`. `window.confirm`
becomes the boolean `confirmed`, and `Date.now()` becomes the caller-supplied
`freshId`.

Points of the code's behaviour that the model keeps as written:

- Age. An age is rejected only when the field is empty or `parseInt` gives a
  number `<= 0`. A `NaN` parse passes (`NaN <= 0` is false), so ".5" is
  accepted and stored as a `NaN` age (`None`).
- Division bands. The Third band is 40 ≤ p < 50
  (src/components/DataEntry.jsx:24).
- Deleting the record under edit. Deleting it does not end the edit. The later
  update maps over a roster with no such id and changes nothing, so the record
  is not recreated (`Roster.UpdateAfterDelete`).
- The record stores the name as typed, untrimmed. Only `validate` trims it (`name.trim()`).
- `editStudent` does not clear `errors`.

## Model

| member | source | states |
|---|---|---|
| Grading.DivisionName | src/components/DataEntry.jsx:14 | every division's name is one of the four in `divisions` |
| Grading.Total | src/components/DataEntry.jsx:17 | the `reduce` total of marks that are all non-negative (a `NaN` counting as 0) is non-negative |
| Grading.TotalAppend | src/components/DataEntry.jsx:17 | the left-to-right `reduce` total of a concatenation is the sum of the two totals |
| Grading.TotalOfFive | src/components/DataEntry.jsx:17 | for five marks the total is their plain sum, and a `NaN` mark counts as 0 (`m \|\| 0`) |
| Grading.TotalBounds | src/components/DataEntry.jsx:17 | marks in [0, 100] total between 0 and 100 times their count |
| Grading.RoundToHundredths | src/components/DataEntry.jsx:18 | `toFixed(2)`: the result has two decimals, lies within half a hundredth of the input (a tie goes away from zero), and stays in [0, 100] for inputs in [0, 100] |
| Grading.HalfUp | src/components/DataEntry.jsx:18 | the whole number nearest a non-negative real, with a tie going up |
| Grading.CalculatePercentage | src/components/DataEntry.jsx:16-19 | the percentage has two decimals and is the hundredth nearest to total / 5, a tie going away from zero (above for a non-negative total, below for a negative one) |
| Grading.PercentageOfFive | src/components/DataEntry.jsx:16-19 | five marks in [0, 100] give a percentage in [0, 100] that is the hundredth nearest their mean, a tie going up |
| Grading.CalculateDivision | src/components/DataEntry.jsx:21-26 | First iff p ≥ 60, Second iff 50 ≤ p < 60, Third iff 40 ≤ p < 50, Fail iff p < 40 |
| Grading.WorkedExample | src/components/DataEntry.jsx:16-26 | marks 80, 70, 90, 60, 50 give 70.00 and First; five marks of 30 give 30.00 and Fail |
| Text.TrimStartRemovesPrefix | src/components/DataEntry.jsx:30 | leading trim removes an all-white-space prefix and stops at the first other character |
| Text.TrimEndRemovesSuffix | src/components/DataEntry.jsx:30 | trailing trim removes an all-white-space suffix and stops at the last other character |
| Text.TrimEmptyIff | src/components/DataEntry.jsx:30 | `name.trim()` is empty exactly when the name is all white space |
| Text.Trim | src/components/DataEntry.jsx:30 | `name.trim()` is no longer than the name and neither starts nor ends with white space |
| Text.TrimIsPiece | src/components/DataEntry.jsx:30 | `trim` returns the contiguous piece of the input that starts right after its leading white space |
| Text.LowerChar | src/components/DataEntry.jsx:80 | lower-casing leaves no upper-case ASCII letter, maps each one to its lower-case letter, and leaves every other character alone |
| Text.LowerIdempotent | src/components/DataEntry.jsx:80 | lower-casing twice is the same as lower-casing once |
| Text.Lower | src/components/DataEntry.jsx:80 | `toLowerCase` keeps the length and lower-cases each character in place |
| Text.Contains | src/components/DataEntry.jsx:80 | `includes`: every name includes the empty search text, and no name includes a longer text |
| Sequences.Map | src/components/DataEntry.jsx:44 | `marks.map(f)` keeps the length and applies `f` at each position |
| Sequences.SubsequenceMembers | src/components/DataEntry.jsx:75 | a subsequence holds no element its source lacks |
| Sequences.RemoveAfterHead | src/components/DataEntry.jsx:75 | removing position k > 0 is keeping the head and removing position k - 1 of the tail |
| Sequences.SubsequenceHead | src/components/DataEntry.jsx:75 | in a list without repeats, its first element can only head a subsequence, or be absent from it |
| Sequences.SubsequenceDetermined | src/components/DataEntry.jsx:75 | two subsequences of a list without repeats that have the same members are equal |
| Validation.FieldErrors | src/components/DataEntry.jsx:29-31 | the entries before the marks loop: only `name` and `age` keys; `name` exactly when `name.trim()` is empty, `age` exactly when the age is empty or parses to a number ≤ 0; each key carries its message |
| Validation.MarkErrors | src/components/DataEntry.jsx:32-35 | the marks loop adds neither a `name` nor an `age` entry |
| Validation.Errors | src/components/DataEntry.jsx:29-35 | the whole map has a `name` entry exactly when `name.trim()` is empty and an `age` entry exactly when the age is empty or parses to a number ≤ 0 |
| Validation.MarkErrorsByIndex | src/components/DataEntry.jsx:32-35 | the marks loop adds key `mark{i}` exactly when mark `i` fails to parse or lies outside [0, 100], adds no other key, and always uses the marks message |
| Validation.MarkErrorsStep | src/components/DataEntry.jsx:32-35 | one turn of the loop adds at most the key of the current mark, and adds it on top of the name and age entries |
| Validation.ErrorsByField | src/components/DataEntry.jsx:29-35 | name errs iff all white space; age errs iff empty or parsed ≤ 0 (a `NaN` parse passes); each mark errs independently iff `NaN`, < 0 or > 100; no other keys; each key has its message |
| Validation.NoErrorsIff | src/components/DataEntry.jsx:37 | the map is empty exactly when the name, the age and every mark pass |
| Validation.ErrorsCoexist | src/components/DataEntry.jsx:29-35 | an empty name and an out-of-range mark are both reported by the same submit |
| Validation.NoKeys | src/components/DataEntry.jsx:37 | `Object.keys(err).length === 0` exactly when the map is empty |
| Validation.AddMarkErrors | src/components/DataEntry.jsx:32-35 | the `forEach` over the marks adds to the name and age entries exactly the marks entries `MarkErrors` describes |
| Validation.Validate | src/components/DataEntry.jsx:28-38 | the loop builds exactly the error map `Errors`, and the result is true exactly when that map is empty |
| Roster.NewRecord | src/components/DataEntry.jsx:44-47 | the `student` object: the given id, the name as typed (untrimmed), `parseInt(age)`, each mark parsed in place, percentage and division derived from the parsed marks |
| Roster.NewRecordConsistent | src/components/DataEntry.jsx:44-47 | a draft that passes validation gives a record with valid fields, percentage equal to `calculatePercentage` of its marks and division equal to `calculateDivision` of that percentage |
| Roster.CommittedGrades | src/components/DataEntry.jsx:44-47 | a committed record's percentage is in [0, 100], is the hundredth nearest its five marks' mean (a tie going up), and its division is the band of that percentage |
| Roster.FindIndex | src/components/DataEntry.jsx:66 | `find` returns a result exactly when some record has the id, and then the first such record |
| Roster.ReplaceById | src/components/DataEntry.jsx:50 | an update keeps the length and order, and replaces exactly the records whose id matches |
| Roster.ReplaceAbsent | src/components/DataEntry.jsx:50 | an update whose id no record has leaves the roster unchanged |
| Roster.ReplaceUnique | src/components/DataEntry.jsx:50 | with unique ids an update replaces the one matching record in place |
| Roster.ReplaceKeepsWellFormed | src/components/DataEntry.jsx:47-50 | an update with a consistent record that carries the edited id keeps ids unique and records consistent |
| Roster.AppendKeepsWellFormed | src/components/DataEntry.jsx:53 | appending a consistent record with a fresh id keeps the roster well formed |
| Roster.WithoutId | src/components/DataEntry.jsx:75 | a delete keeps the records whose id differs, in their original relative order; under unique ids this pins the result (`WithoutIdDetermined`) |
| Roster.WithoutAbsent | src/components/DataEntry.jsx:75 | deleting an id no record has changes nothing |
| Roster.WithoutFirst | src/components/DataEntry.jsx:75 | with unique ids, deleting the first record's id leaves the rest |
| Roster.WithoutUnique | src/components/DataEntry.jsx:75 | with unique ids a delete removes exactly the one record with that id: the roster minus position k |
| Roster.SubsequenceWellFormed | src/components/DataEntry.jsx:75 | dropping records from a well-formed roster leaves it well formed |
| Roster.UniqueIdsDistinct | src/components/DataEntry.jsx:75 | records with unique ids are distinct records |
| Roster.WithoutKeepsWellFormed | src/components/DataEntry.jsx:75 | a delete keeps the roster well formed |
| Roster.WithoutKeepsHead | src/components/DataEntry.jsx:75 | a delete keeps a first record with another id at the front |
| Roster.WithoutIdDetermined | src/components/DataEntry.jsx:75 | with unique ids, any order-preserving selection of exactly the records with another id is the delete's result |
| Roster.UpdateAfterDelete | src/components/DataEntry.jsx:49-51 | an update after the edited record was deleted leaves the roster as the delete left it |
| Roster.Matches | src/components/DataEntry.jsx:80-81 | the filter predicate: with no search text and no division chosen every record matches, and a matching name is at least as long as the search text |
| Roster.Visible | src/components/DataEntry.jsx:79-82 | the view is an order-preserving subsequence of the roster whose members are exactly the records that match the search and the division filter; under unique ids this pins the view (`VisibleDetermined`) |
| Roster.VisibleAll | src/components/DataEntry.jsx:79-82 | with an empty search and no division chosen, the view is the whole roster |
| Roster.VisibleDetermined | src/components/DataEntry.jsx:79-82 | with unique ids, any order-preserving selection of exactly the matching records is the view |
| Roster.VisibleIgnoresCase | src/components/DataEntry.jsx:80 | searching a text or its lower-case form shows the same records |
| Roster.ResubmitUnchanged | src/components/DataEntry.jsx:65-71 | loading a record into the draft and submitting it unchanged passes validation and rebuilds the same record, given number conversions that read back what they print |
| DataEntryForm.DataEntry.constructor | src/components/DataEntry.jsx:5-12 | the initial state: empty roster, empty draft with five empty marks, create mode, no filter, no errors |
| DataEntryForm.DataEntry.SetName | src/components/DataEntry.jsx:98 | the name field's `onChange` sets the name only |
| DataEntryForm.DataEntry.SetAge | src/components/DataEntry.jsx:110 | the age field's `onChange` sets the age only |
| DataEntryForm.DataEntry.SetMark | src/components/DataEntry.jsx:123-127 | a mark field's `onChange` replaces that slot only, keeping five marks |
| DataEntryForm.DataEntry.SetSearch | src/components/DataEntry.jsx:150 | the search field's `onChange` sets the search text only |
| DataEntryForm.DataEntry.SetFilterDivision | src/components/DataEntry.jsx:155 | the division select's `onChange` sets the filter only |
| DataEntryForm.DataEntry.FilteredStudents | src/components/DataEntry.jsx:79-82 | the rows shown are an order-preserving selection of exactly the matching records, and the whole roster when search and filter are empty |
| DataEntryForm.DataEntry.ResetForm | src/components/DataEntry.jsx:58-63 | the draft becomes empty with five empty marks and no errors; the edited id is untouched |
| DataEntryForm.DataEntry.HandleSubmit | src/components/DataEntry.jsx:40-56 | on failed validation only `errors` changes; on success, in create mode one record is appended at the end, and in edit mode every record with the edited id is replaced in place and the edit ends; then the draft is reset; the invariant is kept |
| DataEntryForm.DataEntry.EditStudent | src/components/DataEntry.jsx:65-71 | the draft is loaded, as text, from the first record with the id, and that id becomes the edited one; the roster and errors are untouched |
| DataEntryForm.DataEntry.DeleteStudent | src/components/DataEntry.jsx:73-77 | with confirmation, every record with the id is removed and the others keep their order; without it nothing changes; the edited id is not cleared |

## Left out

- JSX rendering, Tailwind classes, the table and its columns, and the submit button's label (src/components/DataEntry.jsx:84-207). They are presentation. Only the fields' `onChange` handlers are modelled.
- `e.preventDefault()` is a browser event call with no effect on the state.
- `window.confirm` is a browser dialog. Its answer is the `confirmed` parameter of `DeleteStudent`.
- `Date.now()` reads a clock. It is the `freshId` parameter. In create mode it must be positive and not already used by a record.
- The character-level behaviour of `parseInt`, `parseFloat`, `Number.prototype.toString` and `String` is JavaScript library code. It is the `NumberSyntax` parameter, and `NaN` is `None`. `parseFloat` results of ±Infinity are folded into `None`. Both fail the mark check either way, so no committed record differs.
- Grading.RoundToHundredths: IEEE doubles are not modelled. Marks and percentages are exact reals, so `toFixed(2)` is exact rounding of the exact mean. The representation error of binary doubles is not captured, nor is `toFixed` falling back to exponent notation at 1e21 and above.
- The source stores the percentage as the string that `toFixed` returns, and `calculateDivision` coerces it back to a number. The model stores the number.
- Text.LowerChar: `toLowerCase` is modelled for the ASCII letters only. Case mapping beyond ASCII is not captured.
- React's `useState` batching and re-rendering are not modelled. Each handler is one atomic state change, and the filtered view is a function of the state.
- DataEntryForm.DataEntry.EditStudent: requires the id to be in the roster. The source would crash on a missing id, but the handler is only reachable from rendered rows.
- JavaScript truthiness of `editingId`: ids are positive, so `if (editingId)` and `editingId || Date.now()` are modelled as "an id is set".
