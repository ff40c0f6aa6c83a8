# mail_queue in Dafny

This is a model of the mail queue of `mail_queue`, a Rails plugin that
stores outgoing mail in a `mails` table instead of sending it at once.
The model covers the `Mail` model in `lib/mail.rb`:

- `Mail.queue` turns a built message into a row. It fills in the default
  priority (3) and number of tries (3), joins each address list with
  `","`, and refuses the row when the subject, body, sender or recipients
  are blank.
- `Mail.process` is one run of the queue. It selects up to `limit`
  qualifying rows (default 100; `:limit => nil` means no limit): unlocked rows with tries to spare, and
  locked rows with tries to spare whose last write is more than ten
  minutes old. Rows come ordered by `priority asc, created_at asc`. The run
  claims the batch with one bulk write that sets `locked`. Then it
  delivers each mail: a delivered mail is destroyed, and a failed one is
  unlocked and charged one try.
- `deliver!` rebuilds the message from a row. It splits the address
  columns on `","`, leaves out a blank `cc` or `bcc`, and hands the
  message to the transport. Any exception makes it answer false.

How the files fit together:

| file | module | contents |
|---|---|---|
| `wrappers.dfy` | `Wrappers` | `Option` and `Result` |
| `addresses.dfy` | `Addresses` | Ruby's `blank?`, `Array#join(",")` and `String#split(",")`, and their round trip |
| `records.dfy` | `Records` | the row, plus the table's three writes (claim, `destroy`, `save`) stated through a lookup by primary key |
| `selection.dfy` | `Selection` | the query's condition, order and limit |
| `enqueue.dfy` | `Enqueue` | what `queue` inserts, or the error it raises |
| `delivery.dfy` | `Delivery` | the message `deliver!` builds, and its boolean answer |
| `processing.dfy` | `Processing` | `ProcessSpec` (what one run does to the table), its properties, and the class `MailTable` whose `Queue` and `Process` methods update the table step by step and are proved against `Build` and `ProcessSpec` |
| `scenarios.dfy` | `Scenarios` | the situations the plugin's tests describe, as lemmas |

The table is a sequence of rows in insertion order. Every write is stated
through `Lookup`, the row with a given primary key. The current time `now`
is a parameter. The transport is a function from the position of a mail in
the batch and the message to a `Reply`: a returned value (truthy or not)
or a raised exception.

Where the behaviour is open to reading, the model follows the code:

- The claim (`update_all(["locked = ?", true], …)`, lib/mail.rb:65) sets
  `locked` and nothing else. In particular it does not refresh
  `updated_at`. `Processing.ClaimLeavesStaleRowsEligible` states what follows
  from it: right after the claim, a claimed row still qualifies exactly
  when its last write is more than ten minutes old.
- A failed delivery saves the row with `save(false)` (lib/mail.rb:73).
  ActiveRecord's timestamps refresh `updated_at` on that save, so the
  model sets `updatedAt := now` on a failed row.
- The staleness test is strict: a lock exactly ten minutes old does not
  qualify (`updated_at < 10.minutes.ago`).
- `tmail.from.join` and `tmail.to.join` raise on a message without a
  sender or without recipients. The model reports this as
  `NoAddressList` and inserts nothing. An absent `cc` or `bcc` joins to
  `""` (`to_a`).

## Model

| member | source | states |
|---|---|---|
| `Addresses.SplitJoin` | lib/mail.rb:84-85 | `split(",")` after `join(",")` gives the original list of non-empty, comma-free addresses back, the empty list included |
| `Addresses.JoinFields` | lib/mail.rb:84-87 | cutting a stored column at every comma and joining the pieces with "," gives the column back |
| `Addresses.SplitSpec` | lib/mail.rb:84-87 | the pieces `split(",")` returns hold no comma, and the last one is never empty |
| `Addresses.DropTrailingEmptySpec` | lib/mail.rb:84-87 | `split` drops only empty fields, only at the end, and all of them |
| `Addresses.FieldsCommaFree` | lib/mail.rb:84-87 | no field between commas holds a comma |
| `Addresses.JoinBlank` | lib/mail.rb:18-19 | a joined list of well-formed addresses is blank exactly when the list is empty |
| `Addresses.FirstComma` | lib/mail.rb:84 | the result is the position of the first comma, and there is none exactly when the string has no comma |
| `Records.LookupClaim` | lib/mail.rb:65 | the bulk claim sets `locked` on exactly the rows whose id is listed, and changes no other column and no other row |
| `Records.LookupRemove` | lib/mail.rb:69 | after `destroy` the id is gone and every other row reads as before |
| `Records.LookupReplace` | lib/mail.rb:73 | after `save` the saved id reads as the new row if it existed, and every other row reads as before |
| `Records.RemoveCount` | lib/mail.rb:69 | `destroy` of a row that is there removes exactly one row |
| `Records.LookupMember` | test/schema.rb:2 | with a unique primary key, looking up a row's id finds that row |
| `Records.LookupAbsent` | test/schema.rb:2 | a lookup misses exactly when no row carries the id |
| `Records.RemoveMembers` | lib/mail.rb:69 | `destroy` keeps exactly the rows with another id |
| `Records.RemoveKeepsKeys` | lib/mail.rb:69 | `destroy` keeps the primary key unique and bounded |
| `Records.ReplaceKeepsKeys` | lib/mail.rb:73 | `save` keeps every row's id in place and the primary key unique |
| `Records.ClaimKeepsKeys` | lib/mail.rb:65 | the claim keeps every row's id in place and the primary key unique |
| `Selection.Candidates` | lib/mail.rb:57 | a row is a candidate exactly when it is in the table and satisfies the query's condition (either branch) |
| `Selection.CandidatesEmpty` | lib/mail.rb:57 | with no qualifying row the query finds nothing |
| `Selection.CandidatesAll` | lib/mail.rb:57 | with every row qualifying the query finds all of them |
| `Selection.Insert` | lib/mail.rb:58 | inserting keeps the rows (as a multiset) and keeps a sorted list sorted |
| `Selection.Sort` | lib/mail.rb:58 | the result is a permutation of the input ordered by priority, then by creation time |
| `Selection.Select` | lib/mail.rb:55-59 | the batch holds `min(limit, number of qualifying rows)` rows, each of them a qualifying row of the table, in `priority asc, created_at asc` order |
| `Selection.SelectTop` | lib/mail.rb:55-58 | a qualifying row left out of the batch means the batch is full and every batched row comes before it in the order |
| `Selection.SelectAll` | lib/mail.rb:56 | when no more than `limit` rows qualify, the batch holds all of them |
| `Selection.SelectFirst` | lib/mail.rb:58 | the first row of the batch comes before every qualifying row |
| `Selection.SelectUnique` | lib/mail.rb:64 | the batch lists no id twice |
| `Enqueue.Build` | lib/mail.rb:27-47 | a missing sender or recipient list is an error. Otherwise the row is refused exactly when some validated column is blank, and the error names exactly the blank columns. An accepted row carries the given id, the joined columns, the caller's priority and tries or the defaults 3 and 3, no tries used, unlocked, and both timestamps at `now` |
| `Enqueue.QueueDefaults` | lib/mail.rb:28-31 | without options a queued row has priority 3 and three tries |
| `Enqueue.QueueAccepts` | lib/mail.rb:16-19 | with well-formed addresses, `queue` accepts exactly when the subject and body are not blank and both address lists are non-empty |
| `Delivery.QueueThenCompose` | lib/mail.rb:80-89 | the message `deliver!` builds from a queued row has the queued subject, body, sender and recipients, a `cc`/`bcc` header exactly when a non-empty list was queued, and the message's charset or the default one |
| `Delivery.Restored` | lib/mail.rb:84-87 | a stored list of well-formed addresses splits back to itself, and a blank column gives no header |
| `Delivery.FaultIsFailure` | lib/mail.rb:91-93 | a raised exception or a falsy return makes `deliver!` answer false |
| `Processing.LimitOf` | lib/mail.rb:51-56 | the batch size is the caller's `:limit`, 100 when the key is not passed, and at least the table's size for `:limit => nil` |
| `Processing.UnlimitedTakesAll` | lib/mail.rb:51-56 | a run with `:limit => nil` puts every qualifying row in its batch |
| `Processing.Ids` | lib/mail.rb:64 | the id list has the batch's length and the k-th id is the k-th mail's id |
| `Processing.ResolveStep` | lib/mail.rb:68-73 | resolving one more mail changes only the row with that mail's id: it is destroyed after a delivery, saved unlocked with one more try after a failure, and stays absent if it was already gone |
| `Processing.ResolveUntouched` | lib/mail.rb:67-75 | resolving the batch leaves every row it does not name as it was |
| `Processing.ResolveTouched` | lib/mail.rb:67-75 | a resolved mail ends destroyed if its delivery succeeded, and saved unlocked with one more try otherwise |
| `Processing.ResolveKeepsKeys` | lib/mail.rb:67-75 | resolving keeps the primary key unique and bounded |
| `Processing.ResolveAllDelivered` | lib/mail.rb:67-69 | when every delivery succeeds, each resolved mail removes exactly one row |
| `Processing.NothingEligible` | lib/mail.rb:61 | with no qualifying row a run writes nothing |
| `Processing.ProcessUnselected` | lib/mail.rb:55-75 | a row outside the batch reads the same after the run |
| `Processing.ProcessSelected` | lib/mail.rb:67-74 | each batched mail is destroyed if its own delivery returned true, and otherwise saved unlocked with one more try and `updated_at` refreshed; other mails' deliveries do not affect it |
| `Processing.ProcessSkipsIneligible` | lib/mail.rb:57 | a row with its tries used up, or locked less than ten minutes ago, comes out of a run unchanged |
| `Processing.ClaimLocksBatch` | lib/mail.rb:64-65 | the claim locks each batched mail and changes no other column of it, `updated_at` included |
| `Processing.ClaimLeavesStaleRowsEligible` | lib/mail.rb:65 | right after the claim, a claimed mail still qualifies exactly when its `updated_at` is more than ten minutes old |
| `Processing.ProcessKeepsKeys` | lib/mail.rb:50-78 | a run keeps the primary key unique and every id below the table's next id |
| `Processing.ProcessAddsNoId` | lib/mail.rb:50-78 | every row in the table after a run carries an id that was in the table before it |
| `Processing.ProcessAllDelivered` | lib/mail.rb:55-69 | when every delivery succeeds, a run removes `min(limit, qualifying rows)` rows |
| `Processing.MailTable.constructor` | test/schema.rb:2-9 | a new table is empty, and the first id it hands out is 1 |
| `Processing.MailTable.Queue` | lib/mail.rb:27-48 | the result is `Build`'s. On success the row is appended under the next id and the id counter advances. On failure the table is unchanged. The primary key stays unique |
| `Processing.MailTable.Process` | lib/mail.rb:50-78 | the table after the loop is `ProcessSpec` of the table before it, the primary key stays unique, and no id is handed out |
| `Scenarios.StaleLockCutoff` | test/mail_queue_spec.rb:127-137 | a lock eleven minutes old qualifies, and one nine or exactly ten minutes old does not |
| `Scenarios.ExhaustedNeverEligible` | test/mail_queue_spec.rb:139-143 | a row whose tries are used up never qualifies, however old its lock |
| `Scenarios.DeliverAllQualifying` | test/mail_queue_spec.rb:94-104 | with every row qualifying and every delivery succeeding, a run leaves the number of rows minus `limit`, or none when no more than `limit` rows exist |
| `Scenarios.HundredAndOne` | test/mail_queue_spec.rb:94-104 | of 101 qualifying mails, a default run leaves 1 and a run limited to 10 leaves 91 |
| `Scenarios.LowestPriorityFirst` | test/mail_queue_spec.rb:76-81 | a qualifying row whose priority is strictly lower than every other qualifying row's heads the batch |
| `Scenarios.PriorityBeatsAge` | test/mail_queue_spec.rb:76-81 | with limit 1, a newer mail at priority 0 is taken before an older one at priority 3 |
| `Scenarios.SingleFailure` | test/mail_queue_spec.rb:163-172 | a failing run over one qualifying mail leaves it unlocked with one more try |
| `Scenarios.RetriesRunOut` | test/mail_queue_spec.rb:157-172 | three failing runs take a fresh mail from 0 to 3 tries, and a fourth run leaves the table unchanged |

## Left out

- The construction and sending of the message by ActionMailer and TMail (lib/mail.rb:81-91). `Mailer.deliver` is a foreign library. The model reduces its effect to a `Reply` that the transport parameter returns, and folds every exception into `Raised`.
- `init.rb`, which adds `queue` to mailer classes through `send("create_#{method}")`. It is an adapter over ActionMailer.
- The YAML serialisation of `:data` (lib/mail.rb:33). The payload is opaque and passes through as an optional string.
- The `content_type` and `charset` inclusion validations (lib/mail.rb:20-25). They apply only to Ruby symbols, and the stored columns are strings.
- SQL and ActiveRecord mechanics: query planning, type casting, the row's other timestamps, and the real clock. `now` is a parameter, and time is in whole seconds.
- Concurrency between runs, and the atomicity of `update_all`. The model runs one process at a time. `Processing.ClaimLeavesStaleRowsEligible` records the one fact about the claim that a concurrent run would observe.
- Selection.Select: the order of rows that tie on both `priority` and `created_at` is left open by SQL. The model fixes one order and proves nothing about it.
- Processing.MailTable.Process: ActiveRecord's partial updates, and the question of which columns `save(false)` writes back, are not modelled. The saved row is the one the run read, unlocked, with one more try and a fresh `updated_at`.
- `destroy` is taken to remove the row. The tests' stubbed `destroy` (test/mail_queue_spec.rb:111) is not modelled.
- Addresses.Blank: Ruby's `\s` is taken to be space, tab, newline, carriage return and form feed. Vertical tab and non-ASCII whitespace are not blank.
- Enqueue.Build: a `:priority => nil` or `:tries => nil` option that the caller passes explicitly is not modelled. `None` stands for a key the caller did not pass, which gets the default.
- Processing.LimitOf: a negative `:limit` is not modelled, because the limit is a natural number; what SQL does with a negative LIMIT depends on the database.
- Integer widths of the `priority`, `tries` and `maximum_tries` columns are not modelled; they are unbounded integers.
