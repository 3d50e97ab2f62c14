# Poll creation in the Polling App

This project models the `create_poll` handler of the Polling App, a small
Flask service. The handler receives a JSON payload with `title`,
`start_date` and `end_date`. It runs a fixed chain of checks that stops at the first
failure and answers 400 with that check's message. A payload that passes every
check is inserted as one new row of the poll table, and the answer is 201.

- `StringOrder` defines Python's ordering of strings (`LexLess`), since the
  handler compares the two dates as raw strings. It proves that this is a
  strict total order and that it agrees with a first-difference description.
- `PollValidation` holds the payload, the five rejection reasons with their
  exact messages, the validation chain (`Validate`) and the answer it yields
  (`Answer`). It also holds the properties of the chain: what it accepts, that
  the reported reason is the first failing check, and the answer for each check.
- `PollStore` holds the poll table as a class whose `seq<Poll>` field is
  updated in place by `CreatePoll`. `CreatePoll` inserts into whatever table
  it finds, as the handler does. It preserves the invariant that every stored
  poll is one validation admitted. The invariant holds for every table built
  by the model's constructor and `CreatePoll`, which are its only writers.

Date comparison follows the code. `start_date > end_date` is evaluated on
the JSON strings, so `"2024-9-01"` counts as later than `"2024-10-01"`.
The date columns' parsing plays no part in the decision. The handler also
treats a missing key differently from an empty field: the code raises a
`KeyError` (a server error), not a 400. The model therefore takes payloads
whose three keys are all present as strings.

## Model

| member | source | states |
|---|---|---|
| `StringOrder.LexLess` | PollingApp/app.py:34 | Python's `<` on two strings, code point by code point, the shorter string first when one is a prefix of the other; `start_date > end_date` is `LexLess(end, start)`. Its contract: no string is smaller than itself, so equal dates pass line 34 and reach the equality test |
| `PollValidation.Message` | PollingApp/app.py:28-37 | the literal 400 message of each of the five checks; none of them equals the success message of line 45 |
| `PollValidation.Validate` | PollingApp/app.py:28-39 | the early-return chain: title, start, end non-empty, then start greater than end, then start equal to end; a refusal always names a check that really fails on the payload |
| `PollValidation.Respond` | PollingApp/app.py:29-45 | turns the verdict into the HTTP answer: status 201 exactly when the payload was accepted, 400 otherwise |
| `PollValidation.Answer` | PollingApp/app.py:28-45 | the handler's answer to a payload; its status is 201 exactly when title, start and end are non-empty and start < end in Python's string order |
| `StringOrder.LexLessMatchesFirstDifference` | PollingApp/app.py:34 | Python's string `<` holds exactly when `a` is a proper prefix of `b` or the first differing character of `a` is smaller |
| `StringOrder.LexLessHasFirstDifference` | PollingApp/app.py:34 | whenever Python's `a < b` holds, `a` is a proper prefix of `b` or has the smaller character at the first difference |
| `StringOrder.FirstDifferenceGivesLexLess` | PollingApp/app.py:34 | a proper prefix, or a smaller character at the first difference, makes `a < b` hold in Python's order |
| `StringOrder.LexLessAsymmetric` | PollingApp/app.py:34 | `a < b` and `b < a` never hold together |
| `StringOrder.LexLessTransitive` | PollingApp/app.py:34 | the string order used on the dates is transitive |
| `StringOrder.LexLessConnected` | PollingApp/app.py:34-37 | two different strings are always ordered one way or the other |
| `StringOrder.NotGreaterNotEqualIsLess` | PollingApp/app.py:34-39 | start is neither greater than nor equal to end exactly when start is strictly less than end |
| `PollValidation.ValidateAcceptsExactly` | PollingApp/app.py:28-39 | a payload passes the chain iff title, start and end are all non-empty and start < end in Python's string order |
| `PollValidation.ValidateReportsFirstFailure` | PollingApp/app.py:28-39 | the payload is refused for reason `e` iff check `e` fails and every earlier check in the order title, start, end, greater, equal passes |
| `PollValidation.ValidateAcceptsWhenNoCheckFails` | PollingApp/app.py:28-39 | a payload is accepted iff none of the five checks fails |
| `PollValidation.AnswerIsCreatedOrBadRequest` | PollingApp/app.py:28-45 | the answer is 201 iff the payload is acceptable, then with "Poll created successfully"; otherwise it is 400 with the message of the reported reason |
| `PollValidation.AnswerPerCheck` | PollingApp/app.py:28-37 | empty title gives 400 "Title cannot be empty" whatever the dates; then empty start, empty end, start after end, start equal to end give their own 400 messages |
| `PollValidation.MessagesIdentifyOutcome` | PollingApp/app.py:28-45 | the six possible messages are pairwise different, so each call's message names exactly one outcome |
| `PollStore.Store.constructor` | PollingApp/app.py:9-14 | a new poll table is empty and satisfies the store invariant |
| `PollStore.Store.CreatePoll` | PollingApp/app.py:24-45 | answers as the validation chain dictates; on 201 the table becomes the old rows plus exactly one poll carrying the given title, start and end; on 400 the table is unchanged; if every stored poll was one validation admits before the call, that still holds after it (the call itself demands nothing of the stored rows) |

## Left out

- Flask routing, `request.get_json`, `jsonify`, the `/` welcome route and `app.run`: HTTP plumbing with no logic of its own.
- SQLAlchemy and SQLite configuration, `db.session.add`/`commit`, the `options` relationship and `__repr__`: library calls. Persistence is modelled as an append to a sequence.
- The generated integer `id` of a poll: it is assigned by the database, and the handler never reads it.
- The `String(80)` length and the coercion of the date strings into `DateTime` columns: the database library enforces these, or does not, and the handler never checks them.
- `PollStore.Store.CreatePoll`: assumes that the insert and `db.session.commit()` succeed. If the database refuses the row, for example when the date strings cannot be stored in the `DateTime` columns or the table was never created, the source answers with a server error and stores nothing; the model does not capture that path.
- `StringOrder.LexLess`: Dafny's `char` holds Unicode scalar values only, so strings containing a lone surrogate (which a JSON `\ud800` escape can put into a Python `str`, and which Python orders by code point) are outside the model.
- Missing JSON keys, which raise `KeyError` (a server error rather than a 400), and non-string JSON values with Python's truthiness rules for them.
- Vote casting, option indices and the duplicate-vote check: they are not in `PollingApp/app.py`.
