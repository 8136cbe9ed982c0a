# realtimer, modelled in Dafny

realtimer turns changes to a MySQL or Postgres table into messages on
websocket connections. It works in three stages:

- **Reconciliation.** At start-up it reconciles the database's triggers
  with the configured (table, operation) pairs. Two setup paths return
  before this step; "## Left out" names them. A missing `realtimer_trigger_<op>_<table>`
  trigger is created, and a trigger that no pair produces is dropped. Each
  trigger posts to the ingestion endpoint `/api/db`. A MySQL trigger
  evaluates a `CONCAT` over the affected row, so it posts the row rendered as
  `col: value, ...`. A Postgres trigger passes the same column-expression
  text to its trigger function as a quoted string constant, unevaluated.
- **Ingestion.** The endpoint decodes that body into a map and publishes it
  on the topic `lower(event):table`. Publishing goes through an in-memory
  broker that keeps a list of subscribers per topic.
- **Gateway.** The websocket gateway admits a connection on a verified token.
  It subscribes the connection for as long as its read loop runs, then
  unsubscribes it.

The repository also ships a MySQL user-defined function, `http_post`. The
triggers use it to send their HTTP requests. Its options select the request
headers, the body encodings, certificate checking and the fields of the
result.

The model follows the program's structure, one module per concern:

| module | file | models |
|---|---|---|
| `Text` | text.dfy | Go's `strings.Split`, `Join`, `Trim(_, " ")` and ASCII `ToLower`, with the lemmas the proofs need |
| `Effects` | effects.dfy | a script of statements run against a database that rejects some of them, stopping at the first failure (the `if err != nil { return err }` pattern) |
| `Config` | config.dfy | the `DBConfig`/`Table` shapes the configuration file is loaded into |
| `Triggers` | triggers.dfy | the canonical trigger name and `isTableInConfig` |
| `Reconcile` | reconcile.dfy | the create/drop plan both backends share |
| `RowFormat` | rowformat.dfy | the column-expression text both create templates build, and what MySQL's `CONCAT` of it evaluates to |
| `MySql`, `Postgres` | mysql.dfy, postgres.dfy | the two reconcilers, as methods whose statement log is tied to a plan function |
| `Adapters` | adapters.dfy | the backend dispatch in `adapters.New` |
| `PubSub` | pubsub.dfy | the broker, as a class whose `subscribers` map its methods update |
| `Responses`, `Router` | responses.dfy, router.dfy | `callbackHandler` (body decoder, topic, one publish) and `authHandler` |
| `Gateway` | gateway.dfy | `authenticateWS` and the `wsHandler` lifecycle |
| `Udf` | udf.dfy | option parsing, request construction and output projection of `httpRaw`, and `http_post_init` |

The model replaces everything outside the program with inputs:

- The database is a catalog: the trigger listing and the column list of each
  table. A predicate `fails` says which statements the database rejects.
- A connection's reads are a sequence of outcomes.
- Write failures are the set of broken connections.
- Token signing, token verification, the codecs and the HTTP transport are
  function parameters.

## Model

| member | source | states |
|---|---|---|
| Triggers.IsTableInConfig | internal/adapters/adapter.go:36-46 | true exactly when some configured table and one of its operations have the name as canonical name `realtimer_trigger_<lower(op)>_<table>` |
| Triggers.OperationMatches | internal/adapters/adapter.go:38-43 | the inner loop: true exactly when some operation of the table produces the name |
| Triggers.NothingConfigured | internal/adapters/adapter.go:37-45 | with no tables, or only tables without operations, every name is unconfigured |
| Triggers.OrderIrrelevant | internal/adapters/adapter.go:37-45 | the answer depends only on which tables are configured, not on their order or repetition |
| Triggers.OperationOrderIrrelevant | internal/adapters/adapter.go:37-45 | the answer does not depend on the order or repetition of a table's operations |
| Triggers.OperationCaseIgnored | internal/adapters/adapter.go:39-40 | operations that agree up to letter case give the same answer |
| Triggers.TableCaseMatters | internal/adapters/adapter.go:39-40 | illustration: the table part is compared as written, so with `orders` configured `Orders` is not |
| Triggers.NameMatchesExactly | internal/adapters/adapter.go:37-45 | for operations without `_`, the name of (op, table) is configured exactly when a configured table with exactly that name lists an operation equal to op up to letter case, so table names are compared case-sensitively and operations are not |
| Triggers.TriggerNameInjective | internal/adapters/adapter.go:39 | for operations without `_`, equal canonical names mean equal lower-cased operations and equal tables |
| Adapters.BackendFor | internal/adapters/adapter.go:14-32 | MySQL is chosen exactly for `mysql`, Postgres exactly for `postgres` |
| Adapters.New | internal/adapters/adapter.go:13-33 | an unknown type is the "undefined database type" error; otherwise New fails exactly when the chosen backend's setup fails |
| Adapters.AcceptsExactly | internal/adapters/adapter.go:14-32 | with setups that succeed, New succeeds exactly for the two type strings |
| Adapters.OtherCasingRefused | internal/adapters/adapter.go:14-31 | any other casing of `mysql` or `postgres` is an undefined database type |
| Adapters.CaseMatters | internal/adapters/adapter.go:14-31 | illustration: `MySQL` is an undefined database type |
| Reconcile.AttemptedExactlyMissing | internal/adapters/mysql.go:93-106 | a (table, op) pair is attempted exactly when it is configured and its canonical key is not an existing name |
| Reconcile.StaleExactly | internal/adapters/mysql.go:109-117 | a name is acted on by the drop loop exactly when it was met and isTableInConfig is false for it |
| Reconcile.StaleDistinct | internal/adapters/mysql.go:109-117 | names met once are dropped at most once |
| Reconcile.NothingMissing | internal/adapters/mysql.go:93-106 | when every canonical name exists, no create is attempted |
| Reconcile.NothingStale | internal/adapters/mysql.go:109-117 | when every met name is configured, nothing is dropped |
| RowFormat.BuildConcatenation | internal/adapters/mysql.go:251-272 | the column loop appends one `'col: ', FN(ROW.col, 'NULL')` term per column and joins them with `, ', ', ` |
| RowFormat.ConcatenationDenotes | internal/adapters/mysql.go:254-272 | the generated text is exactly the printed CONCAT argument list: a literal `col: ` and a value per column, with literals `, ` between columns |
| RowFormat.ConcatenationOpensWithQuote | internal/adapters/postgres.go:322-324 | with at least one column the generated text starts with the quote of the first `'col: '` literal |
| RowFormat.EvalRendersRow | internal/adapters/mysql.go:264-272 | evaluating that argument list on a row image gives the wire body `c1: v1, c2: v2, ...`, with `NULL` for a null value |
| MySql.RecordExisting | internal/adapters/mysql.go:77-90 | the row loop builds exactly the existing-triggers map of the listing |
| MySql.ExistingRecords | internal/adapters/mysql.go:84-89 | a listed name is recorded exactly when it splits on `_` into more than 3 parts, with `parts[3:]` rejoined as its table |
| MySql.CanonicalRecorded | internal/adapters/mysql.go:84-89 | a canonical name is recorded with its own table, underscores in the table name included |
| MySql.CreateMySqlTriggerForTable | internal/adapters/mysql.go:225-354 | the statements issued are the column query and, for INSERT, UPDATE or DELETE, that operation's CREATE TRIGGER, up to the first failure |
| MySql.CreateForTable | internal/adapters/mysql.go:94-105 | the inner create loop issues the create calls of the table's missing pairs in order, up to the first failure |
| MySql.CreateForOperation | internal/adapters/mysql.go:95-104 | one turn of the inner loop: an existing canonical name issues nothing; otherwise the create call's statements are issued, and a failing one ends the whole create phase there |
| MySql.CreateMissing | internal/adapters/mysql.go:93-106 | the outer create loop issues the create calls of all missing pairs in configuration order, up to the first failure |
| MySql.DropStale | internal/adapters/mysql.go:109-117 | the drop loop meets every existing name once, in some order, and drops the unconfigured ones up to the first failure |
| MySql.InitMySqlTriggers | internal/adapters/mysql.go:65-120 | the pass issues the listing query, the create phase and the drop phase, stopping at the first failing statement, which is the error returned |
| MySql.PlanStopsInCreates | internal/adapters/mysql.go:100-103 | a failing create ends the pass before the drop loop |
| MySql.PlanReachesDrops | internal/adapters/mysql.go:108-117 | when every create succeeds, the drop loop runs after them |
| MySql.PlanRun | internal/adapters/mysql.go:66-70 | once the listing query succeeds, the rest of the pass runs on its own |
| MySql.DropsAfterCreates | internal/adapters/mysql.go:93-117 | if any DROP was issued, the listing query and the whole create phase were issued before it |
| MySql.CreatesExactlyMissing | internal/adapters/mysql.go:93-106 | a CREATE TRIGGER for (table, op) is issued exactly when the pair is configured, its key is missing, and op is one with a template |
| MySql.DropsExactlyStale | internal/adapters/mysql.go:109-130 | `DROP TRIGGER <db>.<name>` is issued exactly for existing names no configured pair produces, each at most once |
| MySql.Idempotent | internal/adapters/mysql.go:93-117 | when the recorded names are exactly the canonical names of the configured pairs, the pass issues only the listing query |
| MySql.CanonicalListingRecorded | internal/adapters/mysql.go:77-90 | a listing of exactly the canonical names (operations without `_`) records exactly those names, so the next pass is idempotent |
| MySql.CreatedNameIsKey | internal/adapters/mysql.go:257-325 | the name each template writes is the reconciliation key of the same pair |
| MySql.CreatedFoundNextPass | internal/adapters/mysql.go:84-95 | a trigger the pass created is recorded with its table by the next pass's row loop |
| MySql.CreatedBodyRendersRow | internal/adapters/mysql.go:249-351 | each template's CONCAT text (NEW for INSERT and UPDATE, OLD for DELETE) evaluates to the row's wire body |
| MySql.UnknownOperationCreatesNothing | internal/adapters/mysql.go:249-353 | an operation other than exactly INSERT, UPDATE or DELETE issues only the column query and reports no error of its own |
| Postgres.RecordExisting | internal/adapters/postgres.go:249-258 | the row loop maps each listed trigger name to its table |
| Postgres.ExistingRecords | internal/adapters/postgres.go:249-258 | a name is recorded exactly when listed, with the table of its last row |
| Postgres.CreatePostgresTrigger | internal/adapters/postgres.go:300-346 | the statements issued are the column query and the CREATE OR REPLACE TRIGGER, up to the first failure |
| Postgres.CreateForTable | internal/adapters/postgres.go:262-273 | the inner create loop over one table's missing pairs, up to the first failure |
| Postgres.CreateForOperation | internal/adapters/postgres.go:263-272 | one turn of the inner loop: an existing canonical name issues nothing; otherwise the create call's statements are issued, and a failing one ends the whole create phase there |
| Postgres.CreateMissing | internal/adapters/postgres.go:261-274 | the outer create loop over the configured tables, up to the first failure |
| Postgres.DropStale | internal/adapters/postgres.go:277-285 | the drop loop meets every existing name once and drops the unconfigured ones up to the first failure |
| Postgres.CreateThenDrop | internal/adapters/postgres.go:261-285 | the drop loop runs only when every create succeeded |
| Postgres.InitPostgresTrigger | internal/adapters/postgres.go:227-288 | the pass issues the function statement, the listing query, the create phase and the drop phase, stopping at the first failure, which is the error returned |
| Postgres.PlanOpening | internal/adapters/postgres.go:238-246 | a failing function statement or listing query ends the pass there |
| Postgres.PlanStart | internal/adapters/postgres.go:238-246 | once both opening statements succeed, the rest of the pass runs on its own |
| Postgres.DropsAfterCreates | internal/adapters/postgres.go:261-285 | if any DROP was issued, the whole create phase was issued before it |
| Postgres.CreatesExactlyMissing | internal/adapters/postgres.go:261-274 | a CREATE TRIGGER for (table, op) is issued exactly when the pair is configured and its key is missing, whatever the operation |
| Postgres.DropsExactlyStale | internal/adapters/postgres.go:277-291 | `DROP TRIGGER <name> ON <db>` is issued exactly for unconfigured existing names, each at most once, with the database name in the table position |
| Postgres.Idempotent | internal/adapters/postgres.go:261-285 | when the listed names are exactly the canonical names, the pass only installs the function and lists triggers |
| Postgres.CreatedNameIsKey | internal/adapters/postgres.go:327-336 | the trigger is named `realtimer_trigger_<lower(op)>_<table>`, fires on `op` and is attached to the table |
| Postgres.CreatedBodyReadsNew | internal/adapters/postgres.go:322-337 | every operation's trigger argument, DELETE included, is the COALESCE list over NEW; with a column it opens with a quote, right after the quote that encloses it |
| PubSub.IndexOf | internal/pubsub/pubsub.go:41-42 | the index where Unsubscribe's scan stops is the first entry equal to the subscriber |
| PubSub.Deliveries | internal/pubsub/pubsub.go:61-65 | one write per subscriber, in list order, each failing exactly when its connection is broken |
| PubSub.SubscriptionManager.constructor | internal/pubsub/pubsub.go:22-26 | a new broker has no topics |
| PubSub.SubscriptionManager.Subscribe | internal/pubsub/pubsub.go:28-34 | the map becomes AfterSubscribe of the old map |
| PubSub.SubscriptionManager.Unsubscribe | internal/pubsub/pubsub.go:36-47 | the scan splices out the first equal entry; the map becomes AfterUnsubscribe of the old map |
| PubSub.SubscriptionManager.Publish | internal/pubsub/pubsub.go:49-66 | the writes are the Deliveries to the topic's subscribers, and the map is left as it is |
| PubSub.RemoveFirstExactly | internal/pubsub/pubsub.go:41-46 | only the first equal entry is removed, the rest stay in order, and the list is one shorter |
| PubSub.RemoveAbsent | internal/pubsub/pubsub.go:41-46 | without an equal entry nothing is removed |
| PubSub.SubscribeAppends | internal/pubsub/pubsub.go:33 | Subscribe appends at the end of its topic's list and changes no other topic |
| PubSub.SubscribeTwice | internal/pubsub/pubsub.go:33 | subscribing the same subscriber twice registers it twice |
| PubSub.UnsubscribeRemovesFirst | internal/pubsub/pubsub.go:41-46 | Unsubscribe removes the first equal entry from its topic and changes no other topic |
| PubSub.UnsubscribeAbsent | internal/pubsub/pubsub.go:41-46 | unsubscribing a subscriber that is not registered changes nothing |
| PubSub.SubscribeThenUnsubscribe | internal/pubsub/pubsub.go:33-46 | for a subscriber not yet in the list, Subscribe then Unsubscribe restores the list exactly |
| PubSub.DeliveriesReachExactly | internal/pubsub/pubsub.go:61-65 | a connection is written to exactly when it belongs to a subscriber of the topic, whatever fails |
| Router.CallbackHandler | internal/api/router.go:39-70 | an empty event or table is a 400 with nothing published; otherwise the decoded body is published once on `lower(event):table` and nothing is written back |
| Router.AuthHandler | internal/api/router.go:19-37 | an empty id is a 400 without a token; a 200 carries the signed token exactly when the id is non-empty and signing succeeds |
| Router.DecodedKeys | internal/api/router.go:55-62 | a key is decoded exactly when some piece splits on `: ` into two parts whose trimmed first part is that key |
| Router.LaterWins | internal/api/router.go:60 | the value of a key is the one of the last piece that decodes to it |
| Router.GarbageDecodesEmpty | internal/api/router.go:55-62 | a body without `: ` decodes to the empty map |
| Router.RoundTrip | internal/api/router.go:55-62 | decoding the wire body of plain pairs gives back their map |
| Router.PairsMapDistinct | internal/api/router.go:60 | with distinct keys, the decoded map holds exactly the pairs |
| Router.TriggerBodyDecodes | internal/api/router.go:54-62 | the body a MySQL trigger sends for a row decodes to that row: every column is a key with its value or `NULL` |
| Router.TopicInjective | internal/api/router.go:66 | for events without `:`, the topic determines the lower-cased event and the table |
| Router.TopicIgnoresEventCase | internal/api/router.go:66 | the event's letter case does not change the topic |
| Gateway.AuthenticateWS | internal/api/ws.go:13-44 | an empty token is a 400; a rejected token or claims of the wrong shape are a 401; the request passes with the subject id exactly when the token verifies |
| Gateway.FirstError | internal/api/ws.go:74-80 | the number of successful reads before the first failing one |
| Gateway.WsHandler | internal/api/ws.go:47-81 | the calls follow Lifecycle, and the broker's map becomes AfterHandler of the old map |
| Gateway.MissingParameterNoSubscription | internal/api/ws.go:50-60 | with event or table missing, the handler only closes the connection |
| Gateway.SubscribedOnce | internal/api/ws.go:70-71 | the handler subscribes exactly once, first, and unsubscribes exactly once, with the same topic and subscriber, before the close |
| Gateway.ReadLoopStopsAtFirstError | internal/api/ws.go:74-80 | the reads logged are the successful ones, then exactly one failure |
| Gateway.TopicMatchesIngest | internal/api/ws.go:62 | the gateway topic equals the ingest topic exactly when the event is already lower case |
| Gateway.HandlerRestoresTopic | internal/api/ws.go:70-71 | a connection not registered before leaves its topic's list as it found it |
| Gateway.IngestReachesConnection | internal/api/ws.go:62-71 | while its read loop runs, a connection subscribed with a lower-case event receives the publish of an ingest on the same event and table |
| Udf.Contains | udf/http.go:43-55 | true exactly when the string occurs in the slice |
| Udf.ParseOptions | udf/http.go:63-84 | the option loop computes the settings ParseAll defines, stopping at the first error |
| Udf.ErrorPersists | udf/http.go:63-84 | once an option fails, the loop's result is that error whatever follows |
| Udf.HeaderRule | udf/http.go:68-73 | `-H` succeeds exactly when the text holds one `:`; the header is then the two halves, which rejoin to the text |
| Udf.SettingRule | udf/http.go:74-81 | `-B`, `-b`, `-O`, `-s` take the first word after the flag; the flag alone is a missing-argument error |
| Udf.LaterSettingWins | udf/http.go:74-81 | a later setting option overrides an earlier one of the same kind |
| Udf.OtherOptionKeepsSetting | udf/http.go:63-83 | an option that does not start with a setting flag leaves that flag's field unchanged |
| Udf.LastSettingWins | udf/http.go:63-83 | after a successful parse, each setting is the word after its flag in the last option starting with that flag, whatever comes between, or the default when no option starts with it |
| Udf.InterleavedSettingWins | udf/http.go:63-83 | `-B w1`, `-H name:value`, `-B w2` parses and ends with body option `w2` |
| Udf.SkipOnlyForTrue | udf/http.go:80-81 | `-s` enables skipping only for the word `true` |
| Udf.BuildRequest | udf/http.go:86-116 | method, URL and skip-verify pass through; an empty body sends none; a non-empty body is the text for `txt`, the decoding for `b64` or `hex` (a failed decoding is that option's decode error), and none for another option; with a body and a non-empty content type the headers are the parsed ones with Content-Type replaced, otherwise exactly the parsed ones |
| Udf.EmptyBodyNoContentType | udf/http.go:87-116 | an empty body sends no body and sets no Content-Type |
| Udf.UnknownInputOptionDropsBody | udf/http.go:88-103 | a `-b` value other than txt, b64 or hex sends the request without its body |
| Udf.Projection | udf/http.go:142-180 | the field-wise rules: STATUS wins over STATUS_CODE, BODY with an unknown `-B` is "Invalid Body Option", no known field is "Invalid Output Option" |
| Udf.SelectFields | udf/http.go:149-162 | each of PROTO, STATUS and HEADER is copied exactly when requested, STATUS_CODE only when STATUS is not, and `selected` holds exactly when one of the four was requested |
| Udf.ProjectOutput | udf/http.go:136-181 | filling the result one field at a time computes the Projection of the requested fields |
| Udf.FullExpands | udf/http.go:143-147 | `-O FULL` alone stands for PROTO, STATUS, HEADER and BODY |
| Udf.FullResult | udf/http.go:143-176 | with FULL, every field but the status code is filled from the response |
| Udf.DefaultResult | udf/http.go:59-168 | by default the result is the response body unchanged and nothing else |
| Udf.HttpRaw | udf/http.go:57-192 | parse, build, send and project in turn, each stage's error ending the call |
| Udf.HttpPostInit | udf/http.go:195-204 | the call is refused exactly when fewer than 3 arguments are given |

## Left out

- Connection setup (`newMySQL`, `newPostgresAdapter`, DSN strings, `Ping`, `defer Close`) is I/O. `Adapters.New` receives the chosen backend's setup as a parameter.
- Two setup paths end before reconciling, and the opaque setup parameter does not show them. A local Postgres whose `http` extension already exists returns the extension query's result without creating or dropping any trigger (internal/adapters/postgres.go:44-48). A failed MySQL ping returns the earlier, nil, error, so `New` reports success with no trigger reconciled (internal/adapters/mysql.go:41-45).
- Plugin and extension installation (copying the UDF library, downloading and unpacking the extension, running `apt`) is filesystem, network and process work. The `CREATE FUNCTION realtimer_trigger` text is a single `CreateFunction` statement.
- internal/adapters/postgress.go (a notification listener goroutine) is not part of this model: it is concurrency over a library channel.
- JWT signing (internal/api/auth.go) and `jwt.ParseWithClaims` are crypto library calls. They are the parameters `sign` and `verify`.
- The broker's `sync.RWMutex` serves only concurrency; the broker is modelled sequentially.
- `json.Marshal` of the published message, the JSON encoding of `respResult` (including `omitempty`), and base64 and hex are library encodings. The codecs are function parameters, and a published message is the map itself.
- The HTTP client, TLS configuration, request creation errors and cgo argument marshalling in `http_post` are left out. The transport is a function from request to response or error.
- `strings.ToLower` is ASCII lower-casing.
- YAML loading in internal/config/parser.go is left out. Only the `DBConfig`/`Table` shapes are kept.
- Route registration, main.go, server.go and the client are wiring.
- A database's answer does not depend on earlier statements: `fails` is a fixed predicate, and the catalog is read once per pass.
- The Postgres row scan reads two columns from a one-column query (internal/adapters/postgres.go:253). This is a runtime failure; the model takes the rows as (table, trigger) pairs.
- The `LIKE 'realtimer_trigger_%'` filter, with `_` as a one-character wildcard, is applied by the database. The catalog holds what the query returns.
- The exact SQL text, whitespace and message texts of the statements are left out. Statements are records of the values their templates interpolate.
- The column-scan loops, and `log.Fatal` on a MySQL scan error, are left out. A table's columns are the catalog's list.
- Error wrapping (`failed to create trigger ... : %w`) and log output are left out. The error is the failing statement.
- `http.Header` key canonicalisation is left out: header names are kept as written.
- `Udf.ProjectOutput`: the "Zero Option" branch of udf/http.go:139-140 cannot be reached, because `strings.Split` never returns an empty slice, so the model has no such error.
- `Udf.SettingRule`: a setting flag with no following word indexes past the end of the slice and panics in Go. Here it is the error `MissingArgument`.
- `Gateway.WsHandler`: reads past the end of the given outcomes fail, that is, the connection is treated as closed.
- `Gateway.WsHandler` and `Router.CallbackHandler`: a failed write is logged in the source. Here it is the `ok` field of the write record.
- `Postgres.CreatedBodyReadsNew`: the Postgres trigger does not post the row's values. internal/adapters/postgres.go:327-337 places the COALESCE list inside the string constant `'%s'`, the third argument of `realtimer_trigger`, and no `CONCAT` evaluates it; the function posts `$3` as it is (postgres.go:229-233). The list's own quotes also end that constant early. The model proves only the text and its leading quote. What the database makes of the broken constant is left out.
- `Udf.HttpPostInit`: the usage text it copies into `message` when it refuses (udf/http.go:197-200) is not modelled. The model returns only the refusal.
- The repository's description speaks of aggregated errors and of validating identifiers. The code returns at the first error and validates nothing; the model follows the code.
