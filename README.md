# Inventory Manager: the next-month successor

The inventory recommendation tool of Kola Inventory Manager asks for the
previous month by its full name and recommends order quantities for the month
after it. The one piece of program logic in that tool is `get_next_month`. It
takes the list of month names and the current name. It finds the first
position of the name in the list (Python's `list.index`), steps forward modulo a
hard-coded 12 and returns the name at the new position. A name that is not
in the list raises `ValueError` with a message that contains the name.

This project models that function and the twelve-name constant it is used
with, and proves what they promise:

- the result is a name of the list;
- its position is one past the first occurrence of the input, modulo 12;
- December is followed by January;
- for a list of twelve distinct names the successor is a permutation (it is
  total, injective, surjective, maps the list to its rotation and never fixes
  a name);
- twelve applications return to the start, and no smaller positive number does;
- unknown names take the error path, and the message carries the name.

Modules:

- `ListIndex` (`list_index.dfy`) models Python's `list.index`. It is a
  first-occurrence search that returns `None` where Python raises
  `ValueError`.
- `InvRec` (`inv_rec.dfy`) holds the `MONTHS` constant, the `Outcome` of a
  call and `GetNextMonth`, with the lemmas about them.

`GetNextMonth` has no precondition. The function can end in three ways, and
`Outcome` has one case for each:

- `Month(name)`: the normal return.
- `InvalidMonth(value)`: the `ValueError` the function raises itself. Its text
  is `InvalidMonthMessage(value)`.
- `IndexOutOfRange(index)`: the `IndexError` raised by `months[next_idx]`.
  This happens in a list shorter than twelve names. The `except ValueError`
  does not catch it, so it escapes the function.

Because the modulus is 12 and not `len(months)`, the successor is a true cycle
only for lists of exactly twelve distinct names (`ValidMonthList`). Two lemmas
say what happens otherwise:

- `ShortListLastFails`: in a shorter list of distinct names, the last name fails with
  `IndexOutOfRange`.
- `LongListStaysInFirstTwelve`: in a longer list, names past the twelfth are
  never reached.

`GetNextMonth` is a Dafny function, so it reads nothing but its two
arguments and changes nothing. The list is only read.

Three facts about the code shape the model:

- `get_next_month` takes the list as its first argument and the name as its
  second.
- For an unknown name it raises `ValueError`, with the message given by
  `InvalidMonthMessage`.
- The `IndexError` from `months[next_idx]` is not caught and escapes the
  function.

## Model

| member | source | states |
|---|---|---|
| `ListIndex.IndexOf` | inv_rec.py:12 | `list.index`: `None` exactly when the name is absent. Otherwise the position of its first occurrence. |
| `ListIndex.IndexOfDistinct` | inv_rec.py:12 | In a list without duplicates, looking up the element at position `k` returns `k`. |
| `InvRec.InvalidMonthMessage` | inv_rec.py:16 | The error text is the fixed prefix, then the offending name, then the fixed hint. |
| `InvRec.InvalidMonthMessageInjective` | inv_rec.py:15-16 | Two different names never give the same error text, so the message identifies the offending value. |
| `InvRec.GetNextMonth` | inv_rec.py:9-16 | The error is the invalid-month error exactly when the name is absent, and it carries that name. A returned name is in the list. For the first occurrence `i`, the result is the name at `(i + 1) % 12`, or the uncaught index error when that position is past the end. |
| `InvRec.NextAt` | inv_rec.py:12-14 | In a twelve-name list without duplicates, the entry at `k` is followed by the entry at `(k + 1) % 12`. |
| `InvRec.NextTotal` | inv_rec.py:12-14 | In such a list, every name has a successor, and it is a name of the list. |
| `InvRec.NextNeverSelf` | inv_rec.py:12-14 | The successor of a name is never that name itself. |
| `InvRec.NextInjective` | inv_rec.py:12-14 | Two names with equal successors are the same name. |
| `InvRec.NextSurjective` | inv_rec.py:12-14 | Every name of the list is the successor of some name of the list. |
| `InvRec.RotateLeft` | inv_rec.py:13-14 | The list moved one place left has the same length and the same names, counted with multiplicity. |
| `InvRec.NextIsRotation` | inv_rec.py:12-14 | The successor of the `i`-th name is the `i`-th name of the rotated list, so the successor permutes the list. |
| `InvRec.IterateAt` | inv_rec.py:13 | `n` applications from the entry at `k` reach the entry at `(k + n) % 12`. |
| `InvRec.PeriodTwelve` | inv_rec.py:13 | Twelve applications return every name to itself. |
| `InvRec.Periodic` | inv_rec.py:13 | Twelve more applications never change the result. |
| `InvRec.NoShorterPeriod` | inv_rec.py:13 | No number of applications between 1 and 11 returns a name to itself. |
| `InvRec.IterateInvalid` | inv_rec.py:15-16 | From an unknown name, any positive number of applications stops at the invalid-month error for that name. |
| `InvRec.MonthsValid` | inv_rec.py:4-7 | The constant has twelve names and none is repeated. |
| `InvRec.MonthsSuccessor` | inv_rec.py:4-14 | With the constant, the month at position `i < 11` is followed by the month at `i + 1`. |
| `InvRec.DecemberToJanuary` | inv_rec.py:4-14 | With the constant, the last month is followed by the first, and "December" by "January". |
| `InvRec.FrobuaryNotAMonth` | inv_rec.py:4-7 | "Frobuary" is not a name of the constant. |
| `InvRec.FrobuaryRejected` | inv_rec.py:12-16 | With the constant, "Frobuary" gives the invalid-month error for "Frobuary". |
| `InvRec.SelectedMonthHasSuccessor` | inv_rec.py:28-32 | Every month the tool lets the user pick has a successor. That successor is a month of the constant, and it differs from the pick. |
| `InvRec.ShortListLastFails` | inv_rec.py:13-14 | In a list of fewer than twelve distinct names, the last name ends in the uncaught index error at position `len(months)`. |
| `InvRec.LongListStaysInFirstTwelve` | inv_rec.py:13-14 | In a list of twelve or more names, every name has a successor, and it is among the first twelve entries. |

## Left out

- The Streamlit interface is left out because it is presentation and event handling: titles, select boxes, sliders, number inputs, buttons and success messages (app.py:23-56, inv_rec.py:19-39).
- Loading the pickled regression model and calling `model.predict` are left out because the model is an opaque library object (app.py:7-13, 53-55).
- Reading the CSV files and the pandas filtering and lookups over them are left out because they are file I/O and library calls (app.py:16-20, 26; inv_rec.py:24-27, 33-35).
- The `st.cache_resource` and `st.cache_data` memoisation is left out because it is framework caching, not program logic (app.py:7, 16).
- The recommended quantity `round(units * (1 + pct_change))` is left out because it is floating-point arithmetic with Python's round-half-to-even on a value read from a CSV (inv_rec.py:37).
- The eight-column input frame for the predictor is left out because it only copies six entered quantities, the month and the year into fixed column names (app.py:41-50).
- A lag-feature pipeline (month keys, latest-month aggregation, monthly totals, six-month lag vectors) is not part of this model: no code for it is in `app.py` or `inv_rec.py`.
- `months` is annotated only as `list` (inv_rec.py:9). The model takes a list of strings, as the one call site passes (inv_rec.py:32, the constant). Lists with non-string entries are not modelled, and neither is a non-string `current_month`.
