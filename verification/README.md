# RustIO: a verified model of its schema pipeline, migrations and login machinery

RustIO is a web and admin framework. This project models the parts of it that are closed state
machines or algorithms, in Dafny, and proves what they promise. Paths below are relative to the root
of the RustIO repository.

* **Schema changes.** A plan is a list of schema-change steps. Each step is checked structurally, then
  against a shadow schema, then applied to the shadow (`Plan`). A schema that keeps its invariant is
  the same thing as a map of maps, and the step on sorted vectors refines one map update
  (`PlanView`). From this follow the invariant over whole runs and when the full validator keeps
  passing (`PlanLaws`), which step undoes which (`PlanUndo`), and exactly which steps may trade places
  (`PlanCommute`). `PlanFindings` says which names a plan can mention and shows small schemas on which
  accepted steps fall short. `SchemaDocument` holds the document, its validator, the relation lookups and the
  export of the admin registry; `Keyed` is the theory of sorted, distinctly keyed vectors, `Order`
  and `Utf8` ground the order of their keys, `SchemaExport` reads the export back by lookup, and `Runs` treats runs which stop at the first refusal.
* **Migrations.** `SqlSplit` proves the statement splitter against a lexer that reads one character at
  a time, and `SqlStatements` says which statements a file has; `Migrations` the transactional apply loop over schedules that include failing runs,
  and `MigrationRaces` several runs that overlap on one database;
  `Slugs` and `Numbering` the generated file names, up to the point where name order stops being
  creation order.
* **Login.** `Limiter` bounds the failures that interleaved attempts can record; `Sessions` shows
  that cleaning up expired rows cannot be observed; `AuthFlows` ties both to the two handlers that
  drive them.
* **Forms, views, routes, names.** `Form` (percent decoding and the round trip against the
  serializer of section 5.2 of the WHATWG URL Standard), `ViewSpecs` (validation, labels and the view
  derived from a model), `Router` (first match and the middleware chain), `EditDistance` and
  `Nearest` (the offered spelling of a mistyped model name).

Code that works by changing things is modelled that way: the shadow, the database, the limiter, the
session table and the form are classes, and each loop of the source is a loop here, proved against a
specification function whose own laws are the lemmas. `hide` statements only keep definitions out of
the verifier's way in the proof they stand in.

`dafny verify dfyconfig.toml` checks the whole project.

## Findings

These are places where the code does less than its documentation or the obvious law says. Each has
an input on which it happens and the exact condition under which it does not.

* `RemoveModel` and `RenameModel` leave relations of other models behind, so a validated plan may end
  in a schema that the full validator refuses. Input: `PlanFindings.OrphansLeft`. Condition:
  `PlanLaws.StaysConsistentExact` for a step and `PlanLaws.PlanStaysConsistentExact` for a plan.
* A step and its natural inverse do not always cancel. Removing a field loses its foreign-key
  annotation, renaming a model overwrites a `singular_name` that differed, and re-adding a relation
  pushes it to the end. Inputs: `PlanFindings.AnnotationLost`, `PlanFindings.SingularNameLost`,
  `PlanFindings.RelationMoved`. Condition: `PlanUndo.UndoExact`.
* Identifiers must be nonempty for the document validator and nonempty after trimming for a plan, so
  an exported, valid schema can hold a model that no plan can remove or mention. Input:
  `PlanFindings.BlankNameExported`. Condition: `PlanFindings.RemovableExact`,
  `PlanFindings.RemovableFieldExact` and `PlanFindings.MentionableExact`.
* Rejoining the statements of a file with `;` and splitting again can merge two of them, because
  trimming drops the newline that ended a line comment. Input: `SqlSplit.RejoiningCanMerge`.
  Condition: `SqlSplit.RoundTripExact`.
* The file that `generate` writes sorts last exactly up to number 9999. Input:
  `Numbering.TenThousandthFile`. Condition: `Numbering.GeneratedSortsLastExact`. And the next number
  wraps after the largest `u32`, in a release build; a debug build panics there. Input:
  `Numbering.NumberWraps`. Condition: `Numbering.NextExceedsExact`.
* The limiter's key joins address and peer without a separator that an address cannot hold, so an
  address behind no known peer can share its key with another address behind a peer. Input:
  `AuthFlows.SharedKey`. Condition: `AuthFlows.PeerlessKeyExact` and `AuthFlows.KeysExact`; for one
  peer, or for one address, keys never meet (`AuthFlows.AddressesApart`, `AuthFlows.PeersApart`).
* Clean-up of expired sessions can be observed when the clock runs backwards. Input:
  `Sessions.BackwardClockObserves`. Condition: `Sessions.ClockExact`.
* `from_schema_model` is documented to return a valid view always. For a model without fields, and
  for repeated or empty names, it does not. Input: `ViewSpecs.FieldlessModel`. Condition:
  `ViewSpecs.DerivedValidExact`.
* A relation field picked as title is shown as a badge or a timestamp when its type is `bool` or
  `DateTime`, so such a view has no title. Input: `ViewSpecs.FlagPickedAsTitle`. Condition:
  `ViewSpecs.TitleExact`.

## Model

| member | source | states |
|---|---|---|
| Order.Total | rustio-core/src/schema.rs:316 | With `Order.Irreflexive`, `Order.Asymmetric` and `Order.Transitive`: the string order all sorting relies on is a strict total order |
| Order.Least | rustio-core/src/viewspec.rs:387-403 | The key an ordered map yields first is before every other key |
| Utf8.OrderIsByteOrder | rustio-core/src/schema.rs:316 | Comparing the bytes of the UTF-8 form, as Rust does, is comparing character by character |
| Keyed.SortedUnique | rustio-core/src/ai.rs:779 | A vector with strictly increasing keys is determined by the set of its elements |
| Keyed.SortSorts | rustio-core/src/ai.rs:764 | On distinct keys `sort_by` gives the strictly sorted vector of the same elements |
| Keyed.SortStable | rustio-core/src/schema.rs:316 | Elements of equal key keep their relative order, whatever the keys |
| Keyed.SortIgnoresOrder | rustio-core/src/schema.rs:310-322 | Two orders of the same distinctly keyed elements sort to the same vector |
| SchemaDocument.Validate | rustio-core/src/schema.rs:328-383 | Accepts exactly the consistent documents and otherwise returns the first problem in document order |
| SchemaDocument.NoProblems | rustio-core/src/schema.rs:328-383 | The list of every problem, in document order, is empty exactly for a consistent document |
| SchemaDocument.IncomingRelations | rustio-core/src/schema.rs:283-300 | Returns every `belongs_to` field that points at the model, in model order and then field order |
| SchemaDocument.IncomingIsInverse | rustio-core/src/schema.rs:268-300 | Where model names, and field names inside each model, are distinct, the incoming relations of a model are exactly the pairs whose `relation_for` is a `belongs_to` on it |
| SchemaDocument.FromAdminIgnoresOrder | rustio-core/src/schema.rs:310-322 | Determinism: neither the registration order of distinctly named entries nor the field order inside them shows in the export |
| SchemaDocument.FieldOrderIrrelevant | rustio-core/src/schema.rs:430-447 | Two entries equal but for the order of distinctly named fields export to the same model |
| SchemaDocument.FromAdminValidates | rustio-core/src/schema.rs:310-383 | The export passes the validator if and only if names are distinct and names, tables and field names nonempty |
| SchemaExport.ExportedField | rustio-core/src/schema.rs:430-476 | Every registered entry and field is found under its name, with the entry's table, names and core flag, and the field's flags, type and foreign key as registered |
| SchemaExport.ExportedRelation | rustio-core/src/schema.rs:268-277 | `relation_for` on a registered field is there iff a relation was registered, with its model, kind and display field |
| SchemaExport.NothingElseExported | rustio-core/src/schema.rs:310-322 | As many models as entries, and each model and field is a registered one |
| SchemaExport.IncomingExported | rustio-core/src/schema.rs:283-300 | The incoming relations of a model in the export are exactly the registered `belongs_to` fields on it |
| SchemaExport.TypeNamesExact | rustio-core/src/schema.rs:488-496 | A type name is valid iff it is the name of a field type, and no two types share one |
| Text.TrimSplit | rustio-core/src/migrations.rs:256 | `trim` removes only whitespace, and all of it at both ends |
| Text.TrimBlank | rustio-core/src/ai.rs:511-517 | A required identifier is refused exactly when it consists of whitespace |
| Plan.StructuralExact | rustio-core/src/ai.rs:410-529 | The structural check accepts exactly the well-formed payloads: names given, types known, no rename to itself, no field twice, attribute allowed |
| Plan.FirstDefect | rustio-core/src/ai.rs:410-529 | It reports the first of all defects of the payload, with its label and subject |
| Plan.ValidateAddModelFields | rustio-core/src/ai.rs:414-426 | The loop over a payload's fields against the set of names seen gives the verdict of the first bad field, repeated names included |
| Plan.Shadow.Position | rustio-core/src/ai.rs:785 | `iter_mut().find` reaches the first model of that name, or none |
| Plan.Shadow.Apply | rustio-core/src/ai.rs:750-849 | The in-place step on the shadow computes the value-level step and changes nothing but the models |
| Plan.ValidatePlan | rustio-core/src/ai.rs:573-599 | Accepts exactly the plans whose run reaches the end, and otherwise reports the step number and reason at which that run stops |
| Plan.PlanConcat | rustio-core/src/ai.rs:573-599 | Compositionality: `p` then `q` is accepted iff `p` is and `q` is from the schema `p` leaves; step numbers of `q` are shifted by the length of `p` |
| Plan.RejectionIsLeast | rustio-core/src/ai.rs:573-599 | A rejection names step `k` iff everything before `k` is accepted and step `k` is refused there, for that reason |
| Plan.AcceptedPlanIsClean | rustio-core/src/ai.rs:573-599 | No accepted plan contains a developer-only or an ill-formed step |
| PlanView.ViewInjective | rustio-core/src/ai.rs:750-849 | Under the invariant the map of models and fields determines the sorted vectors |
| PlanView.GateRefines | rustio-core/src/ai.rs:605-731 | `validate_against` returns the first of the objections that the map view raises, and accepts iff there are none |
| PlanView.StepRefines | rustio-core/src/ai.rs:750-849 | An accepted step keeps the invariant, and on the map it is one insertion, removal, re-keying or update |
| PlanView.AddFieldRefines | rustio-core/src/ai.rs:784-795 | Pushing a field and sorting again inserts it into the field map and keeps the model's invariant |
| PlanView.RenameFieldRefines | rustio-core/src/ai.rs:808-815 | Renaming in place and sorting again moves the field to its new key |
| PlanView.RenameModelRefines | rustio-core/src/ai.rs:801-807 | Renaming a model in place and sorting again moves it to its new key |
| PlanView.AddModelRefines | rustio-core/src/ai.rs:752-780 | The new model enters the map with its fields sorted by name |
| PlanFindings.RelationPushed | rustio-core/src/ai.rs:830-838 | An accepted `add_relation` pushes its target, its `via` and its kind spelled out onto the model it names |
| PlanLaws.StepCheckExact | rustio-core/src/ai.rs:573-599 | A step passes its three gates iff it is well-formed, not developer-only, and enabled on the map |
| PlanLaws.PlanRefines | rustio-core/src/ai.rs:573-599 | A whole plan is accepted iff its run on the map is, and the schema it leaves keeps the invariant, the version fields, and has the view that run computes |
| PlanLaws.ReachedKeepsInvariant | rustio-core/src/ai.rs:573-599 | Every schema reached while an accepted plan is validated keeps the invariant |
| PlanLaws.ConsistentExact | rustio-core/src/schema.rs:328-383 | Under the invariant the full validator adds only the version and that every relation has its target |
| PlanLaws.StaysConsistentExact | rustio-core/src/ai.rs:781-807 | After an accepted step the full validator still passes iff the step takes no name away that a remaining relation targets |
| PlanLaws.PlanStaysConsistentExact | rustio-core/src/ai.rs:573-599 | Over an accepted plan from a consistent schema, the full validator passes after every step if and only if no step orphans a relation |
| PlanFindings.OrphansLeft | rustio-core/src/ai.rs:781-807 | A consistent schema on which an accepted removal, and an accepted renaming, leave a schema the full validator refuses |
| PlanFindings.RemovableExact | rustio-core/src/ai.rs:511-517 | A model of the schema can be removed iff its name is not blank |
| PlanFindings.RemovableFieldExact | rustio-core/src/ai.rs:511-517 | A field of the schema can be removed iff neither its name nor its model's is blank |
| PlanFindings.UpdatableExact | rustio-core/src/ai.rs:410-731 | An `update_admin` step is accepted iff it names a field of the schema, no blank name, and one of `searchable`, `editable`, `nullable` |
| PlanFindings.AcceptedMentions | rustio-core/src/ai.rs:410-517 | No accepted plan mentions a blank name, in any position |
| PlanFindings.MentionableExact | rustio-core/src/ai.rs:410-517 | Some accepted plan mentions a name iff it is not blank |
| PlanFindings.BlankNameExported | rustio-core/src/schema.rs:310-383 | An export that passes the validator with a model no plan can remove or mention |
| PlanUndo.UndoExact | rustio-core/src/ai.rs:750-849 | Running a step and its inverse gives back the identical schema iff the step loses nothing; always for adding a model, field or relation, renaming a field, and changing type or nullability |
| PlanUndo.RemoveThenAddModel | rustio-core/src/ai.rs:752-783 | Removing a model and adding it back restores it iff `add_model` could have produced it |
| PlanUndo.RenameBack | rustio-core/src/ai.rs:801-807 | Renaming a model there and back restores it iff its `singular_name` equalled its name |
| PlanUndo.RelationsRestored | rustio-core/src/ai.rs:830-843 | Removing a relation and pushing it again restores the vector iff it was the last one and of a known kind |
| PlanFindings.AnnotationLost | rustio-core/src/ai.rs:784-800 | An accepted field removal whose inverse loses the foreign-key annotation |
| PlanFindings.SingularNameLost | rustio-core/src/ai.rs:801-807 | An accepted model renaming whose inverse loses the `singular_name` |
| PlanFindings.RelationMoved | rustio-core/src/ai.rs:830-843 | An accepted relation removal whose inverse moves the relation to the end |
| PlanCommute.CommutesExact | rustio-core/src/ai.rs:605-849 | Two accepted steps commute (each order accepted, same result) if and only if they are independent: other models, or in one model other fields, a field and a relation, relations of other names not both pushed, or attributes of one field set without disagreement |
| PlanCommute.AcceptedCommuteExact | rustio-core/src/ai.rs:573-849 | The same for the schema a plan leaves, sorted vectors included |
| PlanCommute.DifferentModelsCommute | rustio-core/src/ai.rs:605-849 | Accepted field- and relation-level steps on different models: each order is an accepted plan and both end in the same schema |
| PlanCommute.InsideModel | rustio-core/src/ai.rs:784-843 | Independent edits of one model commute and do not change each other's verdict, accepted or not |
| PlanCommute.SwapIndependent | rustio-core/src/ai.rs:573-849 | Independent neighbours may be swapped anywhere in a plan: accepted in both orders or in neither, with the same schema at the end |
| SqlSplit.SplitSql | rustio-core/src/migrations.rs:210-272 | The peeking splitter returns the trimmed, nonempty pieces that the one-character lexer cuts |
| SqlSplit.TakeLiteral | rustio-core/src/migrations.rs:217-233 | A literal ends at its first quote that no quote follows, doubled quotes inside it, or with the text; that agrees with closing and reopening it at each doubled quote |
| SqlSplit.TakeBlockComment | rustio-core/src/migrations.rs:244-253 | A block comment ends with the first `*/` after its opener, or with the text |
| SqlSplit.SlashAfterOpener | rustio-core/src/migrations.rs:244-253 | `/*/` leaves a block comment open |
| SqlSplit.TakeLineComment | rustio-core/src/migrations.rs:234-243 | A line comment ends with the first newline after its opener, or with the text |
| SqlSplit.CutsExact | rustio-core/src/migrations.rs:210-272 | The raw pieces are the one way to read the text as pieces joined by `;` cut at every semicolon in code and at no other |
| SqlSplit.PiecesJoin | rustio-core/src/migrations.rs:210-272 | Nothing is lost: the raw pieces rejoined with `;` are the input |
| SqlStatements.StatementsExact | rustio-core/src/migrations.rs:210-272 | The statements are those of the text cut at every semicolon in code and at no other: one for each piece that is not whitespace alone, in order, with the whitespace around it gone; and that determines them |
| SqlStatements.PaddedRoundTrip | rustio-core/src/migrations.rs:210-272 | Statements padded with whitespace on either side, all but the last ending in code with it, are what their join with `;` splits into |
| SqlSplit.Openers | rustio-core/src/migrations.rs:216-253 | What leaves code and what comes back: quote, `--`, `/*`; and that every other character leaves code as it is |
| SqlSplit.StatementsAreFixed | rustio-core/src/migrations.rs:210-272 | Every returned statement is nonempty, trimmed, free of cuts, and splits into itself |
| SqlSplit.RoundTripExact | rustio-core/src/migrations.rs:210-272 | Joining statements with `;` and splitting gives them back iff every one but the last ends in code |
| SqlSplit.RejoiningCanMerge | rustio-core/src/migrations.rs:255-259 | A file whose statements, rejoined, split into fewer |
| Migrations.Db.Apply | rustio-core/src/migrations.rs:107-162 | One run: which files it records, the state it leaves and how it ended, also when it fails part-way |
| Migrations.Db.Transaction | rustio-core/src/migrations.rs:140-156 | Gives a state iff the statements lead there from state to state, none refused, and nothing iff one of them is refused where the ones before it lead |
| Migrations.ExecAllExact | rustio-core/src/migrations.rs:140-156 | The same of the meaning of a file, for all statements and states |
| Migrations.RunReports | rustio-core/src/migrations.rs:107-162 | Every run reports what it did: the recorded files each ran as a whole from the state the one before left, no others are recorded, and a failure names a pending file that was unreadable, refused or not committed and changed nothing |
| Migrations.RefusedStops | rustio-core/src/migrations.rs:140-149 | The first pending file with a refused statement stops the run with itself, recording and changing nothing |
| Migrations.PendingIsRest | rustio-core/src/migrations.rs:87-101 | `status` lists as pending exactly the files after the applied ones, in order |
| Migrations.ApplyExtendsPrefix | rustio-core/src/migrations.rs:107-162 | From an applied prefix a run reaches a longer one, applies exactly the files between, and stops early only at the file that fails and for its reason |
| Migrations.SuccessIsIdempotent | rustio-core/src/migrations.rs:87-162 | After a successful run nothing is pending, and running again applies nothing and changes nothing |
| Migrations.AddFileExact | rustio-core/src/migrations.rs:107-162 | A new file keeps the prefix property iff it sorts after everything applied |
| Migrations.SchedulesKeepPrefix | rustio-core/src/migrations.rs:107-162 | Over any schedule of new files, edits of unapplied files and runs that may fail, the applied files are a prefix of the directory and the state is the fold of their statements, each once and in order |
| Migrations.FreshStart | rustio-core/src/migrations.rs:107-162 | An empty tracking table starts every such schedule |
| MigrationRaces.RacesKeepPrefix | rustio-core/src/migrations.rs:107-172 | However runs overlap between their transactions, each with its own stale copy of the tracking table, and however they fail: the applied files stay a prefix and the state the fold of their statements, each file once |
| MigrationRaces.RacesReportOnce | rustio-core/src/migrations.rs:107-172 | No two overlapping runs report the same file as newly applied, nor one run twice |
| MigrationRaces.RacesFromFresh | rustio-core/src/migrations.rs:107-172 | Both, from an empty tracking table |
| MigrationRaces.TreatExact | rustio-core/src/migrations.rs:116-159 | One iteration passes over a file read as applied, stops at one committed in the meantime, and otherwise stands at the first file not applied, where the prefix grows or the run stops |
| MigrationRaces.StaleRunStops | rustio-core/src/migrations.rs:151-172 | A run that meets a file another run has committed stops with that file and changes nothing |
| MigrationRaces.StaleRunNeverPasses | rustio-core/src/migrations.rs:107-172 | A run stands at or before the first file that another run has committed and it did not read as applied |
| MigrationRaces.AloneIsApply | rustio-core/src/migrations.rs:107-162 | A run that nothing interrupts is the run of the sequential model |
| Slugs.SanitizeName | rustio-core/src/migrations.rs:187-202 | The flagged loop yields the runs of letters and digits, lower-cased and joined by single underscores |
| Slugs.SlugFixedPoints | rustio-core/src/migrations.rs:187-202 | Sanitising changes nothing exactly on such names, and twice is once |
| Slugs.WordsOfSlug | rustio-core/src/migrations.rs:187-202 | The words of a slug are the words it was made from |
| Slugs.SlugKeepsLetters | rustio-core/src/migrations.rs:187-202 | A slug keeps all ASCII letters and digits of the name, in order and in lower case |
| Slugs.SlugIsLower | rustio-core/src/migrations.rs:187-202 | It holds nothing but lower-case letters, digits and underscores |
| Slugs.SlugIgnoresCase | rustio-core/src/migrations.rs:187-202 | Names that differ in ASCII case alone have one slug |
| Numbering.NumberRoundTrip | rustio-core/src/migrations.rs:53-185 | The number is read back from the file name it was formatted into |
| Numbering.SeventhFile | rustio-core/src/migrations.rs:53 | The seventh file is named `0007_add_users.sql` |
| Numbering.NextExceedsExact | rustio-core/src/migrations.rs:174-185 | The next number exceeds every number in the directory iff the largest is not the largest `u32` |
| Numbering.NumberWraps | rustio-core/src/migrations.rs:174-185 | After the file numbered with the largest `u32` the next number is 0 |
| Numbering.FourDigitsOrder | rustio-core/src/migrations.rs:53 | Zero-padded names of numbers up to 9999 sort as their numbers |
| Numbering.FifthDigitSortsEarly | rustio-core/src/migrations.rs:53 | A name with five digits or more sorts before the one numbered 9999 |
| Numbering.GeneratedNext | rustio-core/src/migrations.rs:43-57 | In a directory of generated files numbered 1 to `n` the next one is `n + 1` |
| Numbering.GeneratedSortsLastExact | rustio-core/src/migrations.rs:43-57 | The next generated file sorts after all others iff its number has at most four digits |
| Numbering.TenThousandthFile | rustio-core/src/migrations.rs:43-57 | Generating 9999 files in an empty project reaches a directory whose next file does not sort last |
| Numbering.GeneratedSchedulesKeepPrefix | rustio-core/src/migrations.rs:43-162 | A project that only generates and applies keeps the prefix property as long as it stays within four digits |
| EditDistance.Distance | rustio-cli/src/main.rs:2123-2137 | The two swapped rows compute the recursive Levenshtein distance |
| EditDistance.FillRow | rustio-cli/src/main.rs:2129-2135 | The inner loop turns the row of one prefix into the row of the next |
| EditDistance.ShortestScript | rustio-cli/src/main.rs:2121-2137 | `d` is the distance iff some script of `d` edits leads from one string to the other and no script is shorter |
| EditDistance.Symmetric | rustio-cli/src/main.rs:2121-2137 | Symmetry |
| EditDistance.Triangle | rustio-cli/src/main.rs:2121-2137 | Triangle inequality |
| EditDistance.ZeroExact | rustio-cli/src/main.rs:2121-2137 | Zero iff the strings are equal |
| EditDistance.LengthBound | rustio-cli/src/main.rs:2121-2137 | Never less than the difference in length |
| Nearest.NearestModelName | rustio-cli/src/main.rs:2092-2119 | Offers the first non-core model at the least distance over its four spellings, and something iff some spelling is within one edit, or two for hints of more than four bytes |
| Nearest.ExactNameIsNearest | rustio-cli/src/main.rs:2092-2119 | A name that exists is offered back unless an earlier model also spells it |
| Limiter.LoginRateLimiter.Check | rustio-core/src/auth.rs:667-682 | Refuses with the time left while locked out, forgets an elapsed lockout, and leaves all other keys alone |
| Limiter.LoginRateLimiter.RecordFailure | rustio-core/src/auth.rs:687-697 | Counts saturating, locks from the threshold on, and leaves all other keys alone |
| Limiter.LoginRateLimiter.RecordSuccess | rustio-core/src/auth.rs:702-707 | Forgets the key and leaves all other keys alone |
| Limiter.WaitExact | rustio-core/src/auth.rs:667-682 | A key refused with a wait is refused until the wait is over, with the rest of it, and admitted from then on, if nothing is recorded in between |
| Limiter.LockingFailure | rustio-core/src/auth.rs:687-697 | The failure that reaches the limit, and no earlier one, locks for a whole lockout |
| Limiter.FailuresBounded | rustio-core/src/auth.rs:667-707 | From any state, over elapsed time T with at most c attempts in flight: at most (max + c - 1) * (T / lockout + 1) failures are recorded, and each success allows one more such batch |
| Limiter.BoundAttained | rustio-core/src/auth.rs:667-707 | The bound is tight, for every limit (a limit of none counts as one) and every number of lockouts: some run without successes records exactly that many |
| Sessions.AuthDb.Create | rustio-core/src/auth.rs:274-294 | Inserts one live row for seven days; a token already in the table is refused and nothing changes |
| Sessions.AuthDb.FindValid | rustio-core/src/auth.rs:304-326 | Answers exactly with live sessions; at most the looked-up expired row is deleted |
| Sessions.LivesSevenDays | rustio-core/src/auth.rs:274-326 | A new session is found for 604800 seconds and not from then on |
| Sessions.AuthDb.SweepExpired | rustio-core/src/auth.rs:340-346 | A token keeps its row iff it is live, every kept row is unchanged, the result is the number of tokens gone, and this is the sweep of the run semantics |
| Sessions.AuthDb.CountActive | rustio-core/src/auth.rs:349-358 | The size of any set that lists exactly the user's live tokens; such a set exists |
| Sessions.AuthDb.DeleteOthers | rustio-core/src/auth.rs:363-370 | A token loses its row iff it is the user's and not the kept one, every other row is unchanged, and the result is the number of tokens gone |
| Sessions.AuthDb.SetPassword | rustio-core/src/auth.rs:459-473 | Tokens of this user lose their rows and no others; only this user's hash changes; other users keep rows and records |
| Sessions.AuthDb.Resolve | rustio-core/src/auth.rs:748-759 | Identifies a caller iff the token has a live session of an existing, active user and neither lookup fails |
| Sessions.CleanupUnobservable | rustio-core/src/auth.rs:274-370 | With a nondecreasing clock and fresh tokens, a store with inline deletion and sweeps at any points answers like one that never cleans up |
| Sessions.ClockExact | rustio-core/src/auth.rs:274-370 | For a list of times, all runs at these times with fresh tokens answer like the store that never cleans up if and only if the times never decrease |
| Sessions.BackwardClockObserves | rustio-core/src/auth.rs:304-346 | Two operations that observe it: a session swept at its expiry and looked up earlier |
| Sessions.PasswordChangeInvalidates | rustio-core/src/auth.rs:459-473 | After a password change no earlier token of the user resolves, whatever follows, unless it is drawn again; other users keep theirs |
| Sessions.GoneStaysGone | rustio-core/src/auth.rs:304-336 | A token without a row stays invalid until it is drawn again |
| AuthFlows.VerifyToken | rustio-core/src/auth.rs:244-256 | The accumulated difference is zero iff the tokens are equal, and an empty token never passes |
| AuthFlows.AddressesApart | rustio-core/src/auth.rs:723-728 | Behind one peer, or without one, two addresses share a key iff they are equal |
| AuthFlows.PeersApart | rustio-core/src/auth.rs:723-728 | For one address, two peers, or a peer and none, share a key iff they are equal |
| AuthFlows.KeysExact | rustio-core/src/auth.rs:723-728 | Two addresses behind two peers share a key iff one with its peer is written into the other, and, where the peers hold no bar, iff both are equal |
| AuthFlows.PeerlessKeyExact | rustio-core/src/auth.rs:723-728 | An address without a peer shares a key with one behind a peer iff it is that address with the peer written after it |
| AuthFlows.SharedKey | rustio-core/src/auth.rs:723-728 | Two such addresses |
| AuthFlows.AddressIsNormal | rustio-core/src/admin.rs:6042 | The address of a request is its e-mail field trimmed and lower-cased |
| AuthFlows.CheckCredentials | rustio-core/src/admin.rs:6057-6078 | The verdict is wrong, inactive or right, each exactly when the table says so |
| AuthFlows.HandleLogin | rustio-core/src/admin.rs:6025-6092 | Exactly who is refused, locked out, inactive or signed in; the limiter sees the check and then one failure, one success or nothing, on this key only, so any other address from this peer and any other peer of this address keep their entry; rows change only by the sweep and the new session |
| AuthFlows.InvalidsBounded | rustio-core/src/admin.rs:6025-6092 | End to end: over a time T the requests on one address and IP, one after the other, get at most limit * (T / lockout + 1) answers to wrong credentials, and one such batch more for each sign-in that clears the key |
| AuthFlows.CallsAreRun | rustio-core/src/admin.rs:6042-6080 | Such requests drive the limiter through one run with one attempt in flight, whose failures and successes are the wrong-credential answers and the clearings |
| AuthFlows.HandlePasswordChange | rustio-core/src/admin.rs:6150-6260 | Proceeds iff the CSRF token matches and the form is acceptable, and gives each refusal under exactly its condition; a refusal or a failed update changes nothing, success leaves the new hash and exactly the returned session, and a failed insert leaves the new hash and no session |
| AuthFlows.CheckChange | rustio-core/src/admin.rs:6160-6243 | The tests of the handler, in order |
| AuthFlows.Rotate | rustio-core/src/admin.rs:6251-6252 | The new hash, all sessions of the user dropped, and a new one; what is left when a part fails |
| Form.PercentDecode | rustio-core/src/http.rs:243-266 | The index loop decodes `+` and each complete triple and copies everything else, malformed triples included |
| Form.JoinIsNibbles | rustio-core/src/http.rs:252-258 | The shift and or that the decoder computes from two hexadecimal digits is the byte they write |
| Form.FormData.Parse | rustio-core/src/http.rs:192-211 | Keeps every pair with a nonempty key in order, and the map holds the last value of each key |
| Form.PieceExact | rustio-core/src/http.rs:195-209 | A piece is a key and, after its first equals sign, a value; without one the value is empty, and with an empty key the piece is passed over |
| Form.FormData.GetIsLastOfAll | rustio-core/src/http.rs:213-225 | `get` is the last element of `get_all`, and absent iff that is empty |
| Form.RoundTripExact | rustio-core/src/http.rs:192-211 | Parsing the standard's serialization of a list of pairs gives those with a nonempty key, hence the list itself iff all keys are nonempty |
| Form.DecodeEncode | rustio-core/src/http.rs:243-275 | Decoding undoes the standard's encoder on every byte string |
| Form.EscapeInAnyCase | rustio-core/src/http.rs:243-275 | Every byte is decoded from its escape with the digits in either case |
| Form.UrlencodingLight | rustio-core/src/admin.rs:3883-3896 | The loop escapes exactly the five special characters |
| Form.LightHidesSpecials | rustio-core/src/admin.rs:3883-3896 | None of the five characters is left in the result |
| Form.LightRoundTripExact | rustio-core/src/admin.rs:3883-3896 | Decoding undoes it iff the text has no `+` and no `%` before two hexadecimal digits |
| ViewSpecs.Validate | rustio-core/src/viewspec.rs:338-437 | Accepts exactly the valid views and otherwise returns the first problem in document order, map keys ascending |
| ViewSpecs.NoIssues | rustio-core/src/viewspec.rs:338-437 | The list of every problem is empty exactly for a valid view |
| ViewSpecs.Humanize | rustio-core/src/viewspec.rs:782-797 | Underscores become spaces and each word's first letter upper-case, position by position |
| ViewSpecs.HumanCharExact | rustio-core/src/viewspec.rs:782-797 | A lower-case letter at the start of a word becomes its capital, an underscore a space, and nothing else changes |
| ViewSpecs.Label | rustio-core/src/viewspec.rs:453-477 | The stored label of the language if there is one, else that of the default language, else the humanised source; in a valid view empty only for the empty source |
| ViewSpecs.FromSchemaModel | rustio-core/src/viewspec.rs:568-608 | One view field for each schema field, in order, and the filters of the filterable ones |
| ViewSpecs.DerivedValidExact | rustio-core/src/viewspec.rs:568-608 | The derived view is valid iff the model is named and has fields, all named and no two alike |
| ViewSpecs.DefaultView | rustio-core/src/viewspec.rs:568-755 | For every model with fields of a consistent schema: a valid view, the fields in order, exactly the secret-shaped, opaque and `id` fields hidden, at most one title, and one whenever a plain-text String field exists |
| ViewSpecs.FieldlessModel | rustio-core/src/viewspec.rs:555-568 | A model without fields in a consistent schema, whose derived view the validator refuses |
| ViewSpecs.FiltersExact | rustio-core/src/viewspec.rs:563-755 | The filter bar lists exactly the shown status fields that are not dates |
| ViewSpecs.TitleExact | rustio-core/src/viewspec.rs:657-755 | The title is the first plain String field with a headline name, else the first plain String field, else the first plain field with a declared relation; unless its type makes it a badge or a timestamp |
| ViewSpecs.PickExact | rustio-core/src/viewspec.rs:657-690 | The picked title and subtitle, said of the fields alone: the subtitle is the next such relation, and only behind a relation |
| ViewSpecs.RolesExact | rustio-core/src/viewspec.rs:718-755 | When a field of the derived view is the title, a subtitle, a timestamp or a badge |
| ViewSpecs.FlagPickedAsTitle | rustio-core/src/viewspec.rs:657-755 | A `bool` relation field is picked as title, shown as a badge, and the view has no title |
| ViewSpecs.OneTitle | rustio-core/src/viewspec.rs:657-755 | At most one title, and one whenever a plain-text String field exists |
| Router.ParsePathExact | rustio-core/src/router.rs:186-205 | Two patterns are the same segments iff they are the same nonempty pieces |
| Router.PatternExact | rustio-core/src/router.rs:186-225 | A registered pattern fits a path iff lengths agree and every piece without a leading colon is the piece of the path |
| Router.PatternCaptures | rustio-core/src/router.rs:186-225 | Each piece `:name` captures the piece it fits under its name, and nothing else is captured |
| Router.MatchSegments | rustio-core/src/router.rs:207-225 | Captures the parameters in order iff lengths agree and literals are equal |
| Router.CapturesRebuild | rustio-core/src/router.rs:207-225 | Substituting the captured values into the pattern position by position rebuilds the path |
| Router.RebuiltAreCaptures | rustio-core/src/router.rs:207-225 | Values that rebuild a path from a pattern are the ones matching captures |
| Router.FindTarget | rustio-core/src/router.rs:122-158 | The handler of the first route with path and method; without one, 405 iff some route has the path, else 404 |
| Router.AppendKeepsRoute | rustio-core/src/router.rs:122-158 | Registering more routes never changes the route of a request that had one |
| Router.HasRouteExact | rustio-core/src/router.rs:115-120 | `has_route` holds iff a pattern of that method consists of the same pieces |
| Router.BuildChain | rustio-core/src/router.rs:167-184 | Wrapping from the last middleware to the first gives the right fold, first registered outermost |
| Router.OuterSeesOnly | rustio-core/src/router.rs:167-184 | Outer middlewares, whatever they change, see only what the rest of the chain answers to the requests that reach it |
| Router.ShortCircuitSkips | rustio-core/src/router.rs:167-184 | On requests that reach a middleware as ones it short-circuits, nothing inside it, handler included, changes the answer of the whole chain; the outer middlewares may change requests and responses |
| Router.ShortCircuitHidesAll | rustio-core/src/router.rs:167-184 | The case of a middleware that short-circuits every request |
| Router.ChainConcat | rustio-core/src/router.rs:167-184 | Registering `a` and then `b` wraps `b`'s chain in `a` |

## Left out

- Executing SQL: one statement is an abstract partial function on the user's tables; statements that
  touch the tracking table or control the transaction are outside it, and so is the creation of the
  core tables before a run.
- Directory listing, file names that are not UTF-8, file writes and temporary-file renames: a
  migration run starts from the sorted listing of its `.sql` files.
- Hashing and verifying passwords, lower-casing, random tokens and the clock are parameters; a
  session's expiry is compared as a number, not as the stored text.
- Concurrency inside one limiter call or one session query: each is one step, as the mutex and the
  single SQL statement make it; attempts interleave between these steps.
- MigrationRaces.RacesKeepPrefix: while runs overlap, files are only added, after all others; editing
  a file is a step of the schedules in `Migrations`. Reading a file and its transaction are one step.
- AuthFlows.InvalidsBounded: requests one after the other; overlapping ones are the runs of
  `Limiter.FailuresBounded`, which bounds them for any number in flight.
- Sessions.CleanupUnobservable: the row counts returned by `sweep_expired` and `delete_others` are not
  among the answers, because they do count what has not been cleaned up; their callers drop them.
- Sessions.AuthDb.SetPassword: deleting a user, and with it that user's sessions, is not an operation.
- Form.PercentDecode: the final reading of the bytes as UTF-8 with replacement characters; the round
  trips hold for bytes.
- Plan.FirstDefect: labels are an enumeration and a rendered name `a.b` is kept as the pair, so the
  wording of messages is not modelled.
- Limiter.FailuresBounded: a lockout of no time is left out, since it limits nothing, and `c` is a
  parameter, because the source does not limit attempts in flight.
- ViewSpecs.OneTitle: needs distinct field names, as every valid schema has them.
- `value_label_for`, `preferred_language` and the JSON form of all documents: one lookup each, or
  foreign code.
- `UpdateAdmin` changes no schema, so the attribute value it carries is kept as opaque text.
- `replace_word`, the rest of the command line, HTML rendering, the planner, executor,
  review and relation-registry modules: no invariant of their own, or not used by the code modelled.
- Asynchrony of handlers and middlewares: they are functions of the request and of the rest of the chain.
