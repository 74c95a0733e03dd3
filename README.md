# gnucash_autobudget: account checks, budget correspondence and `paragraphs`

This project is a Dafny model of the core of `gnucash_autobudget/core.py`. That is the code an envelope-budgeting tool for GnuCash runs before it touches any transaction:

- **Mandatory structure.** `_ensure_account_present` and `_ensure_mandatory_structure` check that the book defines four accounts at exact full names with exact types:
  - `Expenses`, an expense account;
  - `Budget`, an asset account;
  - `Budget.Budgeted Funds`, a liability account;
  - `Budget.Available to Budget`, an asset account.

  When one is missing or mistyped, the check raises `InputException` naming that account, with `.` shown as `:`.
- **Correspondence.** `_is_regular_budget_acc`, `_is_regular_expense_acc` and `_expense_to_budget_matching` pair each regular expense account with the regular budget account at the same path below `Budget`.
- **`paragraphs`.** A text normaliser that turns an indented triple-quoted literal into running text. It is used for the exception messages.

The model has three modules:

- `Wrappers` (`wrappers.dfy`): the `Option`, `Outcome` and `Result` datatypes.
- `Paragraphs` (`paragraphs.dfy`): each stage of the `paragraphs` pipeline is a function. The stages are masking hard breaks, stripping, dedenting, collapsing newline runs, spacing solitary newlines and unmasking. The module proves what each stage and the whole pipeline keep and guarantee.
- `Accounts` (`accounts.dfy`): accounts, books, lookup, the two checks, the correspondence and examples on the test suite's account tree.

### Books

A book is the sequence of the root account's descendants, in `get_descendants` order. Each account is a record holding:

- its full name (its ancestors' names and its own, joined by `.`); the model takes no account's own name to contain a `.` (see "Left out");
- its GnuCash type;
- its placeholder flag.

Lookup by full name returns the first account with that name. `WellFormed` states that no two accounts share a full name. Nothing in the code enforces this; the lemmas that need unique full names assume it.

Python 2 byte strings are modelled as `string`, so whitespace is the ASCII set ` \t\n\v\f\r`. `textwrap.dedent` follows its Python 2.7 definition:

- lines made only of spaces and tabs become empty;
- the margin is the longest common prefix of the indentation of the remaining non-empty lines;
- that margin is cut from every line.

### Two readings of the code worth spelling out

- **The path rewrite.** `re.sub(r"\ABudget", "Expenses", ...)` (core.py:91) replaces the leading *characters* `Budget`, not a path segment, and `Rewrite` models exactly that. For full names starting with `Budget.`, which are the only ones it is applied to, the two agree.
- **The correspondence.** `_expense_to_budget_matching` leaves out the two reserved control accounts, and it goes through a lookup that returns one account per name. `MatchingExact` states the correspondence it computes under unique full names, with `Corresponds` excluding the reserved accounts.

## Model

| member | source | states |
|---|---|---|
| Paragraphs.Mask | gnucash_autobudget/core.py:36 | after masking, no BEL is directly followed by a newline; the first character is kept or is the Mark |
| Paragraphs.ExpandMask | gnucash_autobudget/core.py:36 | on text without the Mark character, masking loses nothing: spelling each Mark out as BEL-newline gives the input back |
| Paragraphs.MaskExpand | gnucash_autobudget/core.py:36 | on text without a BEL-newline pair, expanding and then masking gives the text back |
| Paragraphs.MaskUnchanged | gnucash_autobudget/core.py:36 | text without a BEL is left as it is by masking |
| Paragraphs.RStrip | gnucash_autobudget/core.py:37 | `rstrip()` returns a prefix that does not end in whitespace, and everything it drops is whitespace |
| Paragraphs.LStripNewlines | gnucash_autobudget/core.py:37 | `lstrip('\n')` returns a suffix that does not start with a newline, and everything it drops is a newline |
| Paragraphs.StrippedVisible | gnucash_autobudget/core.py:37 | stripping removes whitespace only: the visible characters of the masked text are kept, in order |
| Paragraphs.StrippedEnd | gnucash_autobudget/core.py:37 | the stripped text is empty or ends in a visible character |
| Paragraphs.LinesNoNewline | gnucash_autobudget/core.py:38 | splitting into lines leaves no newline inside any line |
| Paragraphs.LinesJoin | gnucash_autobudget/core.py:38 | joining a non-empty list of newline-free lines with newlines and splitting again gives the same lines |
| Paragraphs.MarginCommon | gnucash_autobudget/core.py:38 | the dedent margin is missing exactly when every line is empty; otherwise it is a prefix of the indentation of every non-empty line and holds only spaces and tabs |
| Paragraphs.MarginLongest | gnucash_autobudget/core.py:38 | the margin is the longest such prefix: every common prefix of the indentations is a prefix of it |
| Paragraphs.CommonPrefixLongest | gnucash_autobudget/core.py:38 | a prefix of two strings is a prefix of their longest common prefix |
| Paragraphs.DedentVisible | gnucash_autobudget/core.py:38 | dedenting removes indentation only: the visible characters are kept, in order |
| Paragraphs.DedentedNonBlank | gnucash_autobudget/core.py:38 | a line that is not blank comes out of dedenting as a non-empty suffix of itself |
| Paragraphs.Dedent | gnucash_autobudget/core.py:38 | `textwrap.dedent(stripped)`: split into lines, dedent them, join them again; DedentLineShape and DedentRemovesMargin pin down what happens to each line |
| Paragraphs.DedentLines | gnucash_autobudget/core.py:38 | `textwrap.dedent` over the lines keeps the number of lines; DedentLineShape states each line's value |
| Paragraphs.DedentLineShape | gnucash_autobudget/core.py:38 | a line of only spaces and tabs comes out of dedenting empty; any other line makes the margin exist and comes out, still not blank, as itself with the margin cut off |
| Paragraphs.DedentRemovesMargin | gnucash_autobudget/core.py:38 | dedenting is complete: when some line is not blank, the dedented lines have no common indentation left |
| Paragraphs.DedentLast | gnucash_autobudget/core.py:38 | dedenting keeps the last character of a text that ends in a visible character |
| Paragraphs.DedentFirst | gnucash_autobudget/core.py:38 | dedenting a text whose first line is not blank yields a text that does not start with a newline |
| Paragraphs.CollapseNewlines | gnucash_autobudget/core.py:39 | `re.sub(r"\n{2,}", "\n\n", dedented)`; CollapseRun, CollapseSingle and CollapseUnchanged pin down its value |
| Paragraphs.CollapseShape | gnucash_autobudget/core.py:39 | after collapsing, no three newlines stand in a row; the empty text stays empty; a first or last character that is not a newline is kept |
| Paragraphs.CollapseConcat | gnucash_autobudget/core.py:39 | collapsing a text cut after a character that is not a newline collapses the two pieces separately: no run of newlines spans the cut |
| Paragraphs.CollapseRun | gnucash_autobudget/core.py:39 | a maximal run of two or more newlines becomes exactly `"\n\n"`, and the text on either side of it is collapsed on its own |
| Paragraphs.CollapseLeadingRun | gnucash_autobudget/core.py:39 | two or more newlines in front of a text that starts with something else collapse to one `"\n\n"` |
| Paragraphs.CollapseLeadingNewline | gnucash_autobudget/core.py:39 | a single newline in front of a text that starts with something else is kept |
| Paragraphs.CollapseSingle | gnucash_autobudget/core.py:39 | a newline standing alone between two other characters is kept as one newline |
| Paragraphs.CollapseVisible | gnucash_autobudget/core.py:39 | collapsing removes newlines only: the visible characters are kept, in order |
| Paragraphs.CollapseUnchanged | gnucash_autobudget/core.py:39 | text with no two newlines in a row is left as it is |
| Paragraphs.SpaceSolitarySpec | gnucash_autobudget/core.py:40-44 | on text without three newlines in a row, every newline left after spacing has a newline beside it, and the visible characters are kept |
| Paragraphs.SpaceSolitary | gnucash_autobudget/core.py:40-44 | keeps the length: the regular expression replaces one character by one character |
| Paragraphs.SpaceSolitaryChars | gnucash_autobudget/core.py:40-44 | at each position a solitary newline becomes a space, a pair of newlines stays `"\n\n"`, and every other character is kept |
| Paragraphs.ReflowedVisible | gnucash_autobudget/core.py:36-44 | the text before unmasking has exactly the visible characters of the masked input, hard breaks included, in order |
| Paragraphs.ReflowedBreaks | gnucash_autobudget/core.py:39-44 | in the text before unmasking, every newline is half of a paragraph break: none stands alone and no three stand in a row |
| Paragraphs.ReflowedSpacing | gnucash_autobudget/core.py:39-44 | against the collapsed text, position by position: its paragraph breaks are `"\n\n"` in the reflowed text, its solitary newlines are spaces, and every other character is kept in place |
| Paragraphs.ReflowedNoTrailingSpace | gnucash_autobudget/core.py:37-44 | the text before unmasking does not end in whitespace |
| Paragraphs.ReflowedNoLeadingNewline | gnucash_autobudget/core.py:37-44 | if the first line left after stripping is not blank, the text before unmasking does not start with a newline |
| Paragraphs.LeadingBlankLineKept | gnucash_autobudget/core.py:37-44 | a first line of only spaces survives `lstrip('\n')`, is blanked by dedent and leaves a paragraph break at the start: `"  \n\nx"` reflows to `"\n\nx"` |
| Paragraphs.SingleBreakJoined | gnucash_autobudget/core.py:26-45 | a single line break inside a paragraph is joined into a space and a blank line is kept as a paragraph break: `"a\nb\n\nc"` becomes `"a b\n\nc"` |
| Paragraphs.Unmask | gnucash_autobudget/core.py:45 | keeps the length: each Mark is replaced by one newline |
| Paragraphs.UnmaskNewlines | gnucash_autobudget/core.py:45 | unmasking keeps the length, a character of the result is a newline exactly when the input had a newline or a Mark there, and every character other than a Mark is kept |
| Paragraphs.Paragraphs | gnucash_autobudget/core.py:26-45 | `paragraphs(u)` runs the six stages in the order of the code: mask hard breaks, strip, dedent, collapse newline runs, space solitary newlines, unmask |
| Paragraphs.ParagraphsNewlines | gnucash_autobudget/core.py:26-45 | the result is as long as the reflowed text, and each of its newlines is either a hard break (`\a\n` in the input) or half of a paragraph break |
| Paragraphs.UnmaskConcat | gnucash_autobudget/core.py:45 | unmasking works character by character: it distributes over concatenation |
| Paragraphs.VisibleUnmask | gnucash_autobudget/core.py:45 | what is visible after unmasking depends only on what was visible before |
| Paragraphs.ParagraphsVisibleUnmasked | gnucash_autobudget/core.py:26-45 | on every input, the visible characters of the result are those of the input with each hard break `\a\n`, and each Mark character, read as a newline: only the BEL of a hard break and whitespace are removed or replaced |
| Paragraphs.ParagraphsVisible | gnucash_autobudget/core.py:26-45 | on text without BEL and without the Mark character, `paragraphs` only removes or replaces whitespace |
| Accounts.Lookup | gnucash_autobudget/core.py:60 | `lookup_by_full_name` returns an account of the book with that name, and returns None only when the book has none |
| Accounts.LookupFinds | gnucash_autobudget/core.py:60 | with unique full names, looking up an account's name finds that account |
| Accounts.DotsToColons | gnucash_autobudget/core.py:65 | `replace('.', ':')` keeps the length, turns every dot into `:` and changes no other character |
| Accounts.ShownNameRecoverable | gnucash_autobudget/core.py:65 | for names without colons, the shown name determines the account name |
| Accounts.TypeConst | gnucash_autobudget/core.py:56-58 | the type dictionary knows exactly the names `asset`, `expense` and `liability`, and maps them to asset, expense and liability types; any other name has no entry, so the lookup raises `KeyError` |
| Accounts.TypeConstDistinct | gnucash_autobudget/core.py:56-58 | different known type names map to different types |
| Accounts.Message | gnucash_autobudget/core.py:62-65 | the text of an `InputException` is `paragraphs` of the template with the type name and the shown account name filled in |
| Accounts.TemplatePlain | gnucash_autobudget/core.py:62-65 | the exception's template holds no BEL and no Mark character, so `paragraphs` finds no hard break in it |
| Accounts.MessageNamesAccount | gnucash_autobudget/core.py:62-65 | the exception's message shows the template with the account type and the shown account name filled in; only whitespace differs |
| Accounts.EnsureAccountPresent | gnucash_autobudget/core.py:55-65 | passes exactly when the account exists and has the type the type name maps to; otherwise raises `InputException` with the type name and the colon-shown name, or `KeyError` when the account exists but the type name is unknown |
| Accounts.EnsureAccountPresentExact | gnucash_autobudget/core.py:55-65 | with unique full names and a known type name, the check passes exactly when the book holds an account of that name and type |
| Accounts.EnsureMandatoryStructure | gnucash_autobudget/core.py:68-72 | passes exactly when all four required accounts are met; on failure the error is the complaint about the first unmet one, in the order checked |
| Accounts.MandatoryStructureExact | gnucash_autobudget/core.py:55-72 | with unique full names, the structure is accepted exactly when all four accounts exist with their required types |
| Accounts.IsRegularBudgetAcc | gnucash_autobudget/core.py:75-79 | a regular budget account is neither of the two reserved accounts, is not a placeholder and is an asset account |
| Accounts.IsRegularExpenseAcc | gnucash_autobudget/core.py:82-83 | a regular expense account is not a placeholder and is an expense account |
| Accounts.Rewrite | gnucash_autobudget/core.py:91 | a name starting with `Budget` gets `Expenses` in place of those six characters and keeps the rest; any other name is unchanged |
| Accounts.UnrewriteRewrite | gnucash_autobudget/core.py:91 | the rewrite of a `Budget` path can be undone |
| Accounts.RewriteInjective | gnucash_autobudget/core.py:91 | two `Budget` paths with the same rewrite are the same path |
| Accounts.BudgetDescendants | gnucash_autobudget/core.py:88 | the descendants of `Budget` are exactly the accounts whose full name starts with `Budget.`, which is what they are when no account name contains a `.` |
| Accounts.RegularBudgetAccs | gnucash_autobudget/core.py:87-89 | keeps exactly the regular budget accounts: not reserved, not a placeholder, of type asset |
| Accounts.BudgetToExpense | gnucash_autobudget/core.py:90-93 | one item per regular budget account, in order |
| Accounts.BudgetToExpenseItems | gnucash_autobudget/core.py:90-93 | each item keeps its budget account and holds the book's account at the rewritten path, or None exactly when the book has no account there |
| Accounts.Invert | gnucash_autobudget/core.py:94-95 | every key is a regular expense account that some item pairs with its value; every regular expense account of an item becomes a key |
| Accounts.ExpenseToBudgetMatching | gnucash_autobudget/core.py:86-95 | every pair is a regular expense account and a regular budget descendant at the rewritten path, the expense account is the one the lookup finds, no reserved account is a value, and no budget account is paired twice |
| Accounts.MatchingComplete | gnucash_autobudget/core.py:86-95 | with unique full names, every corresponding pair of regular accounts is in the result |
| Accounts.MatchingExact | gnucash_autobudget/core.py:86-95 | with unique full names, the result holds a pair exactly when the two accounts correspond |
| Accounts.UnmatchedBudgetAccountAbsent | gnucash_autobudget/core.py:90-95 | a budget account whose rewritten path names no regular expense account is silently absent from the result |
| Accounts.PrepareRun | gnucash_autobudget/core.py:134-137 | a run fails exactly when the structure check fails, with the same `InputException`; otherwise it yields exactly the correspondence `_expense_to_budget_matching` computes, whose every pair corresponds |
| Accounts.MinimalBookAccepted | gnucash_autobudget/tests/test_core.py:47-63 | the test suite's tree (Expenses, and Budget holding Budgeted Funds and Available to Budget) passes the check and pairs nothing |
| Accounts.MissingAvailableRejected | gnucash_autobudget/core.py:68-72 | without `Budget.Available to Budget` the check fails with `InputException("asset", "Budget:Available to Budget")` |
| Accounts.FirstFailureReported | gnucash_autobudget/core.py:69-72 | when `Budget.Budgeted Funds` is mistyped and `Budget.Available to Budget` is missing, the mistyped one is reported |
| Accounts.FoodMatched | gnucash_autobudget/core.py:86-95 | `Expenses.Food` pairs with `Budget.Food`, and `Budget.Rent`, which has no expense account, is left out without error |
| Accounts.InvertTwo | gnucash_autobudget/core.py:94-95 | one matched and one unmatched item give a dictionary holding the matched pair alone |

## Left out

- The GnuCash bindings (`gnucash.gnucash_core_c`, sessions, `Account` objects) are foreign code. A book is modelled as a sequence of account records, and `lookup_by_full_name` and `get_descendants` are written out over it.
- `lookup_by_name("Budget")` (core.py:88) is taken to return the top-level `Budget` account, and its descendants are taken to be the accounts whose full name starts with `Budget.`; that holds when no account name contains a `.`. `ExpenseToBudgetMatching` requires that lookup to succeed, which `_ensure_mandatory_structure` guarantees on every run.
- `_trxs_for_budget` (core.py:113-116) is not modelled. It does not run as written: its comprehension clauses are out of order and it names an undefined `t`. It also depends on timestamps.
- `_add_budget_entries` (core.py:119-129) and the matching and synthesis of budget splits are not modelled. The code is cut off mid-string and calls helpers that are not defined anywhere.
- `add_budget_entries` (core.py:134-142) is modelled only up to the account work, as `PrepareRun`. The `BeginEdit`/`CommitEdit` loop over transactions is persistence against the external store.
- `setup.py` is packaging, and the test fixtures (temporary files, session set-up and tear-down) are I/O. Only the account tree the tests build is used, in `MinimalBook`.
- Account names that contain a `.` are not modelled: a full name is one string, and `Lookup` and `BudgetDescendants` match it as a whole. GnuCash reads a full name as a path and splits it at every `.`. For a budget account `Budget.Misc. stuff` the program's lookup of `Expenses.Misc. stuff` (core.py:90-92) then finds no account and the budget account is left unpaired, where `ExpenseToBudgetMatching` pairs it. A top-level account named `Budget.old` passes the `Budget.` prefix test without being a child of `Budget`.
- Python 2 dictionary iteration order is not modelled. The dictionary comprehensions are folds over the budget accounts in `get_descendants` order, and a later pair overrides an earlier one. With unique full names no two items share a key, so the order does not change the result.
- The regular expressions and `textwrap.dedent` are modelled as the string functions they compute on byte strings. CPython's regular-expression engine itself is not modelled.
- Paragraphs.ReflowedNoLeadingNewline: requires the first line left after stripping to be non-blank. Without that, `paragraphs` can start with a paragraph break (`LeadingBlankLineKept`), so "no leading newline" does not hold for every input.
- Paragraphs.ReflowedNoTrailingSpace: speaks of the text before unmasking. A hard break at the very end (`\a\n`) becomes a final newline in the result, as the code intends.
- Accounts.Message: the text of a `KeyError` is the unknown key itself. Python's own rendering of the exception is not modelled.
