# Quartz JDBC job store: `Util` string helpers

A Dafny model of `org.quartz.impl.jdbcjobstore.Util`, the helper class used by
every driver delegate of Quartz's JDBC job store. It has three operations, all
pure functions on strings:

- `rtp(query, tablePrefix)` puts the configured table prefix into a stored SQL
  statement by replacing each `{0}` placeholder.
- `getJobNameKey(jobName, groupName)` and `getTriggerNameKey(triggerName, groupName)`
  build the in-memory string key of a job or trigger from its name and group, as
  `group + "_$x$x$_" + name`.

Everything is in module `Util` (`util.dfy`). Strings are `seq<char>`.

The key functions are modelled by value. The model proves their shape and
that trigger keys and job keys are the same strings. For the documented
uniqueness it gives a sufficient condition and an exact description of the
collisions. The sufficient condition is that no group contains `'$'`: the first
`'$'` of a key then sits right after the group, and `SplitKey` reads the pair
back. The exact description (`KeyEqualityExact`): two different pairs share a
key exactly when one group is the other followed by `_$x$x$` or by `_$x$x$_`
and more, with names that fit (`GroupExtendsOver`). Such collisions exist (see
"## Findings"), even with no name or group that contains the separator
(`KeyCollisionThroughOverlap`). `EscapedJobNameKey` is a corrected key. It
doubles each `'$'` of the group. It is unique for all inputs, and on groups
without `'$'` it gives the same string as the original.

`rtp` is modelled as the contract its documentation states: one left-to-right
pass that replaces each `{0}` with the prefix. The source calls
`java.text.MessageFormat.format`, and the two agree only on queries whose text
outside the `{0}` placeholders has no brace and no apostrophe
(`MessageFormatLiteral`). `Rtp` requires that. Its results are tied to an
independent reference: the query's literal parts (`Split`) joined with the
prefix (`Join`).

One natural reading of "single pass" is false. A prefix that contains no `{0}`
can still produce one together with the literal text around it. For example,
with prefix `}{`, the query `a{0}0{0}` becomes `a}{0}{` (`PrefixCanFormToken`).
What does hold is that every `{` in the result comes from a copy of the prefix.
So a prefix without `{` leaves no placeholder in the result. Copies of the
prefix are never expanded again: `Rtp(q, "{0}") == q`.

## Model

| member | source | states |
|---|---|---|
| `Util.JobNameKey` | quartz_1x/src/java/main/org/quartz/impl/jdbcjobstore/Util.java:55-57 | the job key's length is the group's length + 7 + the name's length, starts with the group, continues with the separator `_$x$x$_` and ends with the name; `intern()` keeps the value, so the key depends only on the pair |
| `Util.TriggerNameKey` | quartz_1x/src/java/main/org/quartz/impl/jdbcjobstore/Util.java:70-72 | the trigger key is the job key of the same (name, group): same length, prefix and suffix, no tag that tells the two apart |
| `Util.JobAndTriggerKeysShareOneSpace` | quartz_1x/src/java/main/org/quartz/impl/jdbcjobstore/Util.java:55-72 | a trigger key equals a job key exactly when both come from the same (name, group) (for groups without `'$'`), so the two key spaces overlap |
| `Util.SplitKey` | quartz_1x/src/java/main/org/quartz/impl/jdbcjobstore/Util.java:53-57 | inverse of key construction: whenever it returns a pair, the group has no `'$'` and the key of that pair is the given key |
| `Util.FirstDollarFollowsGroup` | quartz_1x/src/java/main/org/quartz/impl/jdbcjobstore/Util.java:53-57 | for a group without `'$'`, the first `'$'` of the key is at the group's length + 1 |
| `Util.SplitKeyRoundTrip` | quartz_1x/src/java/main/org/quartz/impl/jdbcjobstore/Util.java:53-57 | for a group without `'$'`, splitting the key gives back exactly (name, group) |
| `Util.KeyUniqueWhenGroupsHaveNoDollar` | quartz_1x/src/java/main/org/quartz/impl/jdbcjobstore/Util.java:53-57 | the documented uniqueness, in both directions, under the condition that neither group contains `'$'`: keys are equal iff names and groups are |
| `Util.KeyCollision` | quartz_1x/src/java/main/org/quartz/impl/jdbcjobstore/Util.java:55-56 | without that condition uniqueness fails: (`b_$x$x$_c`, `a`) and (`c`, `a_$x$x$_b`) are different pairs with the same key |
| `Util.KeyCollisionThroughOverlap` | quartz_1x/src/java/main/org/quartz/impl/jdbcjobstore/Util.java:55-56 | a collision needs no name that contains the separator: (`$x$x$_c`, `a`) and (`c`, `a_$x$x$`) are different pairs with the same key |
| `Util.SeparatorOverlap` | quartz_1x/src/java/main/org/quartz/impl/jdbcjobstore/Util.java:56 | the separator overlaps a shifted copy of itself only when the shift is 6 (on the shared `_`) or at least 7 |
| `Util.ExtensionCollides` | quartz_1x/src/java/main/org/quartz/impl/jdbcjobstore/Util.java:55-57 | every pair of pairs of the `GroupExtendsOver` shape gets one key |
| `Util.CollisionIsExtension` | quartz_1x/src/java/main/org/quartz/impl/jdbcjobstore/Util.java:55-57 | equal keys whose groups differ in length always have the `GroupExtendsOver` shape |
| `Util.KeyEqualityExact` | quartz_1x/src/java/main/org/quartz/impl/jdbcjobstore/Util.java:53-57 | the exact limit of the documented uniqueness: two keys are equal iff the pairs are equal or one group extends the other in the `GroupExtendsOver` shape |
| `Util.EscapeDollars` | quartz_1x/src/java/main/org/quartz/impl/jdbcjobstore/Util.java:53-57 | doubling `'$'` leaves a group without `'$'` unchanged and never shortens it |
| `Util.EscapedJobNameKey` | quartz_1x/src/java/main/org/quartz/impl/jdbcjobstore/Util.java:53-57 | the corrected key equals the original key on every group without `'$'` and ends with the name |
| `Util.SplitEscapedKey` | quartz_1x/src/java/main/org/quartz/impl/jdbcjobstore/Util.java:53-57 | decoder of the corrected key: whenever it returns (name, group), the corrected key of that pair is the given key |
| `Util.SplitEscapedKeyRoundTrip` | quartz_1x/src/java/main/org/quartz/impl/jdbcjobstore/Util.java:53-57 | the corrected key decodes back to (name, group) for every input |
| `Util.EscapedKeyUnique` | quartz_1x/src/java/main/org/quartz/impl/jdbcjobstore/Util.java:53-57 | the documented uniqueness holds for the corrected key with no condition: equal keys iff equal names and groups |
| `Util.Rtp` | quartz_1x/src/java/main/org/quartz/impl/jdbcjobstore/Util.java:28-42 | each `{0}` of the query is replaced by the table prefix and nothing else changes: the result is the literal parts joined with the prefix; its length is the query's length + k·(prefix length − 3) for k placeholders; a query without `{0}` comes back unchanged; every `{` of the result comes from the prefix, so a prefix without `{` leaves no `{0}` |
| `Util.SplitJoin` | quartz_1x/src/java/main/org/quartz/impl/jdbcjobstore/Util.java:30-31 | the literal parts joined with `{0}` give back the query, so the parts and the placeholders between them account for every character |
| `Util.SplitPartsTokenFree` | quartz_1x/src/java/main/org/quartz/impl/jdbcjobstore/Util.java:30-31 | no literal part contains `{0}`: the scan finds every placeholder ("any occurrences") |
| `Util.SubstituteIsJoin` | quartz_1x/src/java/main/org/quartz/impl/jdbcjobstore/Util.java:30-31 | the one-pass scan equals the reference definition (literal parts joined with the prefix) for every query and prefix |
| `Util.SubstituteLength` | quartz_1x/src/java/main/org/quartz/impl/jdbcjobstore/Util.java:30-31 | each placeholder found trades its 3 characters for the prefix's |
| `Util.SubstituteWithoutToken` | quartz_1x/src/java/main/org/quartz/impl/jdbcjobstore/Util.java:30-31 | a query with no `{0}` is returned unchanged, whatever the prefix |
| `Util.BracesComeFromPrefix` | quartz_1x/src/java/main/org/quartz/impl/jdbcjobstore/Util.java:30-41 | when the literal parts have no `{`, every `{` in the result comes from the prefix; a prefix without `{` leaves no placeholder |
| `Util.RtpDoesNotReexpand` | quartz_1x/src/java/main/org/quartz/impl/jdbcjobstore/Util.java:30-41 | single pass: with `{0}` itself as the prefix the query is unchanged, so inserted copies are not substituted again |
| `Util.PrefixCanFormToken` | quartz_1x/src/java/main/org/quartz/impl/jdbcjobstore/Util.java:30-41 | a prefix free of `{0}` (`}{`) can still form a `{0}` with the literal text around it: `a{0}0{0}` becomes `a}{0}{` |

## Left out

- `Util.Rtp`: requires `MessageFormatLiteral(query)`. The source hands any query to `java.text.MessageFormat`, which also handles apostrophe quoting, other argument indices such as `{1}`, number and date sub-formats, and throws on unmatched braces. That library is not part of this model. On queries outside the restricted class the model says nothing. The general scan `Substitute` has no precondition. Its lemmas hold for every query, except `BracesComeFromPrefix`, which needs literal parts without `{`.
- The object identity given by `String.intern()` on the keys is left out; only the value of the key is modelled.
- A `null` argument (Java turns a `null` prefix or name into the text `"null"`) is not modelled; all arguments are strings.
- `QuartzMSSQLTestSupport.java` is not part of this model. It starts and stops a database container, creates the schema through a helper, and fills a configuration map: I/O and wiring with nothing to prove.
- The rest of the JDBC job store is not part of this model: trigger store, locks, misfire handling, cluster recovery and the driver delegates that call these helpers.

## Findings

| source | as written | input that shows it | evidently intended | confidence | as-written member | corrected member |
|---|---|---|---|---|---|---|
| quartz_1x/src/java/main/org/quartz/impl/jdbcjobstore/Util.java:55-57 | the key is `group + "_$x$x$_" + name`, documented as unique; `getTriggerNameKey` (lines 70-72) is built the same way | job `b_$x$x$_c` in group `a` and job `c` in group `a_$x$x$_b` both get the key `a_$x$x$_b_$x$x$_c` | different (name, group) pairs get different keys | not executed; follows from the concatenation alone; needs one group to be another followed by `_$x$x$` or by the separator and more (`KeyEqualityExact`), so rare in practice | `Util.KeyCollision` | `Util.EscapedKeyUnique` |
