# express-jobly: partial-update builder and technology association, in Dafny

This project models the two pieces of logic in the express-jobly job-board API
that are more than routing and database glue:

- `sqlForPartialUpdate` (helpers/sql.js), which turns an object of changed
  fields into the text of an SQL `SET` clause (`"first_name"=$1, "age"=$2`)
  and the list of values bound to its placeholders. It throws BadRequest
  ("No data") for an object with no keys.
- `User.addTechnology` (Models/user.js), which links a user to a technology.
  It first checks that the user exists (NotFound), then that the technology
  exists (NotFound), then that the link is not already stored (BadRequest).
  Only after all three checks does it insert the row.

Modules:

- `Errors` (errors.dfy): the NotFound / BadRequest error values, and the
  `Result` type used instead of exceptions.
- `Decimal` (decimal.dfy): how a template literal writes a number as decimal
  text (`FromNat`, and `FromInt` for signed ids), and the inverse readings.
- `Sql` (sql.dfy): the builder `SqlForPartialUpdate`. The object is a sequence
  of `(field, value)` pairs in key enumeration order. The column mapping
  `jsToSql` is a `map<string, string>`. `ParseSetClause` is an independent
  reader of SET clauses. The main lemmas state that the built clause reads
  back as exactly the intended assignments.
- `User` (user.dfy): `AddTechnology` as a pure transition over the users,
  technologies and user_technologies tables. It returns the new tables and
  the outcome. `Serve` runs a sequence of such requests one after another.

Two behaviours of the code that are easy to miss:

- The JSDoc (express-jobly2/helpers/sql.js:7) calls the column mapping
  optional, but the code reads `jsToSql[colName]` unconditionally. The model
  therefore always takes a map.
- The fallback to the field name is written with `||`. So it applies both
  when the mapping has no entry and when the entry is the empty string.
  `Sql.ColumnName` does the same.

## Model

| member | source | states |
|---|---|---|
| Sql.SqlForPartialUpdate | express-jobly2/helpers/sql.js:11-24 | Fails with BadRequest("No data") exactly when the object has no keys, whatever the column mapping is. Otherwise `values` has one entry per key, and entry i is the value of the i-th key. |
| Sql.SetClauseReadsBack | express-jobly2/helpers/sql.js:16-21 | For a non-empty object whose columns (mapped, or fallen back to the field name) hold no double quote, reading the `setCols` text back gives exactly one assignment per key, in key order. The i-th assignment has the i-th field's column and placeholder i+1. |
| Sql.SetClauseReadsBackIffQuoteFree | express-jobly2/helpers/sql.js:16-21 | For a non-empty object, the clause reads back as the intended assignments if and only if no column it names holds a double quote. Columns are spliced between quotes unescaped, so a quote in a column ends the identifier early. |
| Sql.SetClauseIsTheOnlyReading | express-jobly2/helpers/sql.js:16-21 | Any text that reads back as the intended assignments is exactly the builder's `setCols`, so each placeholder is written as `$<i+1>` with no leading zeros and the fragments are joined by `", "`. |
| Sql.ParsedIsJoinRendered | express-jobly2/helpers/sql.js:17-21 | Whatever the clause reader accepts is the `", "`-join of the `"<column>"=$<n>` renderings of the assignments it returns. |
| Sql.PlaceholdersBindFields | express-jobly2/helpers/sql.js:12-22 | Placeholders run 1..n in key order. Placeholder `$k` selects `values[k-1]`, which is the value of the field that `$k` assigns. The column is `jsToSql[key]` when that entry is present and non-empty, and otherwise the key itself. |
| Sql.SetClauseHasNoDanglingSeparator | express-jobly2/helpers/sql.js:21 | The joined clause starts with the opening quote of the first column and ends with a placeholder digit. So it neither starts nor ends with `", "`. |
| Sql.AliyaExample | express-jobly2/helpers/sql.js:29-34 | `{firstName:'Aliya', age:32}` with `{firstName:'first_name'}` gives `"first_name"=$1, "age"=$2` and `['Aliya', 32]`. |
| Sql.NoDataExample | express-jobly2/helpers/sql.js:37-42 | The empty object is refused with BadRequest even when a column mapping is supplied. |
| Decimal.FromNat | express-jobly2/helpers/sql.js:17 | A placeholder number is written as one or more decimal digits, with no leading zero. |
| Decimal.ToNatFromNat | express-jobly2/helpers/sql.js:17 | Reading back the decimal text of n gives n, so each placeholder text names exactly its number. |
| Decimal.FromNatInjective | express-jobly2/helpers/sql.js:17 | Distinct placeholder numbers have distinct texts. |
| Decimal.FromNatToNat | express-jobly2/helpers/sql.js:17 | Digit text without leading zeros is exactly the text of its value, so a placeholder that reads as number n was written as n's text. |
| Decimal.FromInt | express-jobly2/Models/user.js:57 | A technology id is written in a message as its digits, with a leading minus sign when it is negative. |
| Decimal.ToIntFromInt | express-jobly2/Models/user.js:57 | Reading back the message text of any integer id gives that id. |
| User.AddTechnology | express-jobly2/Models/user.js:37-72 | Succeeds exactly when the user exists, the technology exists and the pair is not stored yet. On any error the tables are unchanged. On success the only change is that the pair is appended to user_technologies. |
| User.ErrorPrecedence | express-jobly2/Models/user.js:38-69 | A missing user is reported as the user NotFound even if the technology is missing too. Next comes the technology NotFound, and last the BadRequest for an existing link. Each error carries the source's message text. |
| User.RepeatIsRejected | express-jobly2/Models/user.js:60-72 | Repeating a call that succeeded fails with BadRequest "already associated" and stores nothing. |
| User.AddTechnologyPreservesWellFormed | express-jobly2/Models/user.js:37-72 | If every stored pair names an existing user and technology, and no pair is stored twice, one call keeps both facts true. |
| User.ServePreservesWellFormed | express-jobly2/Models/user.js:60-72 | Over any sequence of calls handled one after another, a pair is stored at most once, and every stored pair references an existing user and technology. |
| User.ServeStoresAdmissible | express-jobly2/Models/user.js:37-72 | After a sequence of calls, the users and technologies are unchanged. The stored pairs are exactly the old ones plus every requested pair whose user and technology exist. |

## Left out

- Database access (`db.query`) is modelled only as membership tests on the
  three tables and as appending one row. Asynchronous suspension is not
  modelled.
- The INSERT statement is cut off in the source after its first column. So
  the model only claims that the (username, techId) pair is stored. It says
  nothing about other columns of user_technologies.
- The check-then-insert race between concurrent requests is not modelled, and
  neither is the storage layer's uniqueness constraint. The model is
  sequential.
- `User.apply` is not modelled: its body is a placeholder comment in the source.
- Route handlers, JWT and login middleware, JSON-schema validation, password
  generation, token creation and bcrypt are left out. They are external
  libraries or HTTP wiring.
- The Jest `describe`/`test`/`expect` harness is not modelled. Its asserted
  values appear as the lemmas `Sql.AliyaExample` and `Sql.NoDataExample`.
- Key order: the object is taken as its keys in `Object.keys` order. The
  JavaScript rule that integer-like keys enumerate first, in ascending order,
  is not modelled, because the callers' field names are identifiers.
- An undefined `jsToSql` would throw a TypeError in the source for a
  non-empty object. The model always takes a map.
- Inherited object properties (such as `jsToSql["constructor"]`) and
  non-string values in `jsToSql` are not modelled. The mapping holds strings
  only, and only the empty string counts as falsy.
- Purity: the builder and `AddTechnology` are pure functions over immutable
  values, so they cannot change their inputs. No member states this
  separately.
- A technology id is modelled as the integer the database compares with the
  technologies key, of either sign. Messages show it as that integer's
  decimal text, as `${techId}` writes a number. Callers that pass the id as
  route text (Routes/jobs.js:133 does so for jobs) are not modelled: text
  such as "07" finds id 7 but is echoed as "07", and non-numeric text fails
  inside the database query rather than with NotFound.
- Sql.SetClauseReadsBack: the read-back is stated only when every column the
  clause names is free of double quotes. `Sql.SetClauseReadsBackIffQuoteFree`
  shows that this condition is also necessary.
- Sql.PlaceholdersBindFields: stated under the same condition, because it is
  derived from the read-back.
