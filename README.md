# laravel-repository, modelled in Dafny

A verified model of the two pieces of logic in the `stplat/laravel-repository`
package. The first is the abstract `Repository` base class, which puts
pagination, filter helpers, export and failure-isolating handlers on top of
Eloquent. The second is the `make:repository` generator command.

The model is written in Dafny 4.11 and consists of five modules:

- `Wrappers` (`wrappers.dfy`): `Option` (PHP `null`) and `Result` (a thrown exception).
- `Php` (`php.dfy`): the PHP runtime behaviour the code relies on. This covers
  values and truthiness (`if ($x)`), the `??` operator, `\Exception` versus
  `\Error`, and `str_replace` with lemmas about it.
- `QueryModel` (`query.dfy`): the query builder as a record. It holds the
  selected columns, the conditions, the orderings, an offset and a limit.
  A table has a name, a set of schema columns, the name of its primary key
  column and a sequence of rows. What a
  condition means for a row, and how rows are sorted, belong to the database.
  They are the two function-valued fields of a `Store` parameter.
  `Count` and `Get` give the meaning of `count()` and `get()` in those terms.
- `Repository` (`repository.dfy`): `paginate`, `whereBetween`,
  `whereBetweenDate`, `whereText`, `export`, `recordHandler` and `saveHandler`.
  The repository's Eloquent model is passed in as the `Table`.
  `paginate` and the `where*` helpers are methods. They reassign a local
  query record through the same guarded steps as the PHP code.
  The handlers are functions that return a `Handled` outcome. That outcome
  holds what the handler returns or lets escape, what it logged, and which
  record the callback received.
- `MakeCommand` (`make_command.dfy`): the command's constants and
  `replaceClass`. `replaceClass` is a method that returns the Artisan command
  lines in the order they are issued, plus the rendered stub.

Behaviour of the code that is easy to get wrong:

- The page clamp in `paginate` moves the page back by at most one.
  It does not keep `(page-1)*limit < total`. `Repository.ClampCanOvershoot`
  shows the case: page 5, limit 10 and 25 rows give page 4, whose first index is 30.
- The order column is checked against the schema only when it is truthy
  in PHP's sense. So `null`, `""` and `"0"` mean "no ordering and no check".
- The entity name is built from the raw `name` argument, not from the
  namespace-qualified `$name` parameter of `replaceClass`. The same raw argument
  goes into `{{ class }}`.
- Removing `Repository` is a single `str_replace` pass. The entity can
  therefore still contain `Repository`; see `MakeCommand.EntityMayStillContainRepositoryWord`.
- `take` is called for every non-zero limit, but the query builder ignores a
  negative one (`QueryModel.Take`). So only a positive limit reaches the query.
- `whereText` adds an `ilike` condition. The model treats it as an opaque
  condition and does not model case-insensitive matching.

## Model

| member | source | states |
|---|---|---|
| `Php.TruthyString` | src/Repository.php:133 | a string is truthy unless it is `""` or `"0"` (definition, no contract) |
| `Php.Truthy` | src/Repository.php:171-174 | `null`, `false`, `0` and the falsy strings are falsy, every other value is truthy (definition, no contract) |
| `Php.Coalesce` | src/Repository.php:116-118 | `$x ?? $d` is the value when present and the default when null |
| `Php.StrReplace` | src/Console/RepositoryMakeCommand.php:54-58 | one left-to-right pass replacing non-overlapping occurrences; an empty search string changes nothing (definition, no contract; its properties are the lemmas below) |
| `Php.NoOccurrenceUnchanged` | src/Console/RepositoryMakeCommand.php:54-58 | `str_replace` leaves a subject without the search string unchanged, with zero replacements |
| `Php.ReplaceLength` | src/Console/RepositoryMakeCommand.php:43 | each replacement changes the length by the replacement length minus the search length, so removing `Repository` shortens the name by 10 per occurrence |
| `Php.ReplaceTrailing` | src/Console/RepositoryMakeCommand.php:43 | a trailing search string after search-free text is exactly what gets replaced, when the search string's first character does not recur in it |
| `Php.ReplaceAfterPlainPrefix` | src/Console/RepositoryMakeCommand.php:43 | text without the search string's first character passes through `str_replace` unchanged |
| `Php.ReplaceAround` | src/Console/RepositoryMakeCommand.php:54-58 | for a search string that cannot overlap itself, an occurrence splits the subject: the text before it and the text after it are replaced independently, for any surrounding text |
| `Php.ReplaceJoin` | src/Console/RepositoryMakeCommand.php:54-58 | every occurrence of a search string that cannot overlap itself is replaced: pieces without it, joined by it, come back joined by the replacement |
| `QueryModel.FilterRows` | src/Repository.php:124 | the rows `count()` sees are exactly the rows that meet every condition (order and duplicates: `FilterOne`, `FilterConcat`) |
| `QueryModel.FilterOne` | src/Repository.php:124 | a single row is kept exactly when it meets every condition |
| `QueryModel.FilterConcat` | src/Repository.php:124 | filtering the concatenation of two row lists is the concatenation of the filtered lists, so the filter keeps order and duplicates |
| `QueryModel.Count` | src/Repository.php:124 | `count()` is at most the number of rows, and every row when there are no conditions |
| `QueryModel.Take` | src/Repository.php:143-145 | `take(n)` sets the limit to `n` for a non-negative `n`, leaves a negative one out, and touches nothing else |
| `QueryModel.Select` | src/Repository.php:114 | `select($columns)` on a fresh model: the columns, and no conditions, orders, offset or limit (definition, no contract) |
| `QueryModel.Qualified` | src/Repository.php:172 | the column name `"$tableName.$field"` used by every `where*` helper and by `export` (definition, no contract) |
| `QueryModel.Window` | src/Repository.php:129-145 | `skip`/`take` return at most `limit` rows, all from the input; with no positive offset and no limit, all rows |
| `QueryModel.Get` | src/Repository.php:149 | `get()` returns at most `limit` rows for a non-negative limit; without orders, at most the count, each a table row meeting every condition |
| `QueryModel.GetFromTable` | src/Repository.php:149 | for a store whose ORDER BY only rearranges rows, `get()` returns table rows meeting every condition, at most `count()` of them, for any orders |
| `QueryModel.FilterAppend` | src/Repository.php:171-176 | chaining conditions filters what the earlier conditions let through |
| `QueryModel.FilterNothing` | src/Repository.php:242-249 | a query with no conditions returns every row |
| `QueryModel.ExtraConditionsNarrow` | src/Repository.php:165-220 | conditions appended by the `where*` helpers can only lower the count |
| `QueryModel.WindowIsSlice` | src/Repository.php:126-145 | for a non-negative skip and take, the served rows are one contiguous slice |
| `Repository.MessageNamesColumnAndTable` | src/Repository.php:136-138 | the missing-column error message contains both the column name and the table name |
| `Repository.MissingColumnError.Message` | src/Repository.php:137 | the message text of the missing-column exception (definition; see the next row) |
| `Repository.ClampPage` | src/Repository.php:125 | the page served is the requested page exactly when `(page-1)*limit < count`, and otherwise `page-1`; no other value is possible |
| `Repository.Filtered` | src/Repository.php:114-122 | the query after `select($columns)` and the optional callback, on which `count()` runs (definition, no contract) |
| `Repository.OrderRequested` | src/Repository.php:133 | an order column is requested when it is given and truthy (definition, no contract) |
| `Repository.Paginate` | src/Repository.php:112-155 | defaults 1, 5 and `ASC`; count taken after the callback and before skip, order and take; the clamped page; an offset only when the skip is positive; an error naming the column and the table exactly when a truthy order column is not in the schema; an appended `orderBy` otherwise; a limit only for a positive limit; `total`, `limit`, `order`, `page` and `column_order` as given or computed; `data` is the unexecuted query or its rows, which for a store whose sort only rearranges rows are at most `total` table rows meeting the conditions |
| `Repository.ClampRepairsOnePageOvershoot` | src/Repository.php:125 | a request at most one page past the last row is served a page that starts within the rows |
| `Repository.ClampCanOvershoot` | src/Repository.php:125-126 | page 5 of 10 over 25 rows is served as page 4, which starts at index 30, past the end |
| `Repository.EmptyFirstPage` | src/Repository.php:125-131 | page 1 of an empty result is reported as page 0 and sets no offset |
| `Repository.ThirdPageOfTwentyFive` | src/Repository.php:124-149 | `paginate` with page 3 and limit 10 over 25 rows, no conditions and no order, returns total 25, page 3 and rows 21 to 25 |
| `Repository.FifthPageOfTwentyFive` | src/Repository.php:124-149 | `paginate` with page 5 and limit 10 over 25 rows returns total 25, page 4 and no rows |
| `Repository.Present` | src/Repository.php:171-174 | `array_key_exists($key, $data) && $data[$key]` (definition, no contract) |
| `Repository.WhereBetween` | src/Repository.php:165-179 | null data leaves the query unchanged; otherwise a `>=` condition on `table.field` exactly when `min` is present and truthy, then a `<=` exactly when `max` is; nothing else changes |
| `Repository.WhereBetweenDate` | src/Repository.php:189-202 | the same with `whereDate` conditions and the `from` and `to` entries |
| `Repository.WhereText` | src/Repository.php:212-220 | null data leaves the query unchanged; otherwise exactly one `ilike` condition on `table.field` with pattern `'%' + data + '%'` (so `'%%'` for the empty string) |
| `Repository.KeepKeys` | src/Repository.php:232-237 | an entry is kept exactly when it is in the column array and its key is in the allow-list (order: `KeepKeysConcat`, `KeepKeysOne`) |
| `Repository.KeepKeysConcat` | src/Repository.php:232-237 | filtering a concatenation of column arrays is the concatenation of the filtered arrays, so `select` receives the kept columns in their original order |
| `Repository.KeepKeysOne` | src/Repository.php:232-237 | a single entry is kept exactly when its key is in the allow-list |
| `Repository.ColumnValues` | src/Repository.php:242-243 | `select` receives the values of the column array, one per entry, in order |
| `Repository.KeepKeysIdempotent` | src/Repository.php:232-237 | filtering by the allow-list a second time changes nothing |
| `Repository.KeepKeysAllAllowed` | src/Repository.php:232-237 | when every key is allowed, the array is kept whole and in order |
| `Repository.Export` | src/Repository.php:230-250 | columns are filtered by key only for a non-empty allow-list; a single `table.id IN ids` condition only for non-empty ids; without ids, every row is returned |
| `Repository.FindById` | src/Repository.php:261 | a found record is in the table and has that primary key; nothing is found exactly when no row has that key |
| `Repository.Invoke` | src/Repository.php:267-272 | the callback receives the record; its return value is passed through; an `\Exception` is logged once and becomes false; an `\Error` escapes unchanged and unlogged |
| `Repository.RecordHandler` | src/Repository.php:258-273 | a not-found lookup logs once and returns false without invoking the callback; any other throwable from the lookup escapes unchanged and unlogged; a found record goes to the callback under `Invoke`; a null callback raises an engine error; an `\Exception` escapes only from the lookup; at most one log line, and a log line means false |
| `Repository.RecordHandlerOnTable` | src/Repository.php:258-273 | when the database answers the lookup, the handler either logs the missing id and returns false, and then no row has that key, or passes the callback a table row with that key |
| `Repository.SaveHandler` | src/Repository.php:281-296 | a failure to create the model is logged and becomes false, or escapes when it is an `\Error`; otherwise the callback runs on the new model under `Invoke` |
| `Repository.MissingRecordIgnoresCallback` | src/Repository.php:258-265 | for a not-found lookup, the result does not depend on the callback, and no record is passed to it |
| `MakeCommand.StubPath` | src/Console/RepositoryMakeCommand.php:66-69 | the stub is `/../stubs/repository.stub` relative to the command's directory |
| `MakeCommand.DefaultNamespace` | src/Console/RepositoryMakeCommand.php:77-80 | the default namespace is the root namespace followed by `\Repositories` |
| `MakeCommand.Arguments` | src/Console/RepositoryMakeCommand.php:87-92 | the argument list: `name`, required (definition; see `CommandSurface`) |
| `MakeCommand.Options` | src/Console/RepositoryMakeCommand.php:99-105 | the option list: `m` and `ms` without values (definition; see `CommandSurface`) |
| `MakeCommand.CommandSurface` | src/Console/RepositoryMakeCommand.php:17-105 | the command is `make:repository`, described as creating a repository, and generates the type `Repository`, the word `replaceClass` removes; exactly one required argument, `name`, and two value-less flags, `m` and `ms`, with no shortcut and no default |
| `MakeCommand.Entity` | src/Console/RepositoryMakeCommand.php:43 | the entity is the name minus 10 characters per removed `Repository` (which characters: `EntityRemovesEvery`) |
| `MakeCommand.RepositoryWordBorderFree` | src/Console/RepositoryMakeCommand.php:43 | two occurrences of `Repository` can never overlap |
| `MakeCommand.EntityRemovesEvery` | src/Console/RepositoryMakeCommand.php:43 | every `Repository` is removed: a name made of `Repository`-free pieces joined by `Repository` gives the pieces run together |
| `MakeCommand.EntityOfRepositoryName` | src/Console/RepositoryMakeCommand.php:43 | a name that ends in `Repository` and has no other occurrence of it gives its prefix |
| `MakeCommand.UserRepositoryEntity` | src/Console/RepositoryMakeCommand.php:43 | `UserRepository` gives the entity `User` |
| `MakeCommand.DoubleRepositoryEntity` | src/Console/RepositoryMakeCommand.php:43 | `UserRepositoryRepository` gives the entity `User` |
| `MakeCommand.RemovalJoins` | src/Console/RepositoryMakeCommand.php:43 | removing an occurrence joins the text before it to the text after it, and the joined text is not scanned again |
| `MakeCommand.EntityMayStillContainRepositoryWord` | src/Console/RepositoryMakeCommand.php:43 | `RepoRepositorysitory` gives the entity `Repository`: the removal is a single pass |
| `MakeCommand.MigrationFlag` | src/Console/RepositoryMakeCommand.php:45-47 | the model command's suffix is ` -m` exactly when `m` or `ms` is set, and empty otherwise |
| `MakeCommand.Render` | src/Console/RepositoryMakeCommand.php:54-58 | the array form of `str_replace`: a pass for `{{ class }}` over the whole stub, then a pass for `{{ entity }}` over its result (definition; see the lemmas below) |
| `MakeCommand.PlaceholdersBorderFree` | src/Console/RepositoryMakeCommand.php:55 | neither placeholder can overlap itself, so each pass replaces every occurrence |
| `MakeCommand.RenderJoin` | src/Console/RepositoryMakeCommand.php:54-58 | both passes replace every occurrence: a stub split by `{{ class }}` becomes the pieces joined by the name, and that text split by `{{ entity }}` becomes its pieces joined by the entity |
| `MakeCommand.ReplaceClass` | src/Console/RepositoryMakeCommand.php:40-59 | two commands when `ms` is set and one otherwise; `make:seeder <entity>Seeder` comes first when issued; the last command is always `make:model <entity><suffix>`; the output is the stub rendered with `{{ class }}` first and then `{{ entity }}`, every occurrence of each replaced (`RenderJoin` and the lemmas after it) |
| `MakeCommand.RenderWithoutPlaceholders` | src/Console/RepositoryMakeCommand.php:54-58 | a stub without placeholders is written out unchanged |
| `MakeCommand.RenderClassPlaceholder` | src/Console/RepositoryMakeCommand.php:54-58 | every `{{ class }}` in the stub becomes the name, whatever the text around it, when the result holds no `{{ entity }}` |
| `MakeCommand.ClassPassSkipsEntityPlaceholder` | src/Console/RepositoryMakeCommand.php:54-58 | the `{{ class }}` pass does not touch an `{{ entity }}`, whatever text without `{{ class }}` follows it |
| `MakeCommand.RenderEntityPlaceholder` | src/Console/RepositoryMakeCommand.php:54-58 | every `{{ entity }}` in the stub becomes the entity, whatever the text around it, when the stub holds no `{{ class }}` |
| `MakeCommand.DoubleBraceFree` | src/Console/RepositoryMakeCommand.php:55 | text in which no `{` directly follows another, as in PHP code, holds neither placeholder |
| `MakeCommand.RenderClassStub` | src/Console/RepositoryMakeCommand.php:54-58 | for a stub of such text with `{{ class }}` placeholders and a non-empty name without braces, every placeholder becomes the name |
| `MakeCommand.NoClassAroundEntity` | src/Console/RepositoryMakeCommand.php:54-58 | an `{{ entity }}` is not part of a `{{ class }}` and does not form one with the text around it |
| `MakeCommand.EntityJoinHasNoClass` | src/Console/RepositoryMakeCommand.php:54-58 | pieces without `{{ class }}`, joined by `{{ entity }}`, hold no `{{ class }}` |
| `MakeCommand.RenderEntityStub` | src/Console/RepositoryMakeCommand.php:54-58 | for a stub of such text with `{{ entity }}` placeholders, every placeholder becomes the entity |
| `MakeCommand.ClassReplacedBeforeEntity` | src/Console/RepositoryMakeCommand.php:54-58 | the replacements are sequential: an `{{ entity }}` that the class name brings in is itself replaced by the entity |

## Left out

- SQL semantics of `where`, `whereDate`, `ilike`, `whereIn` and `orderBy` are not modelled. They are the `Store` parameter; `QueryModel.ValidStore` only asks that sorting rearranges rows. This covers collation, date parsing, case-insensitive matching and the order of sorted rows.
- `Get` returns whole rows. Projection onto the selected columns is not modelled; `select` is recorded in the query only.
- `Count` counts the rows that meet the conditions; an offset, limit or order that the callback sets on the query is ignored by it.
- `Window` treats a non-positive offset as no skip, and `Take` leaves a negative limit out. This is how the query builder behaves; that library code is not part of this model.
- `Repository.WhereBetween`, `Repository.WhereBetweenDate` and `Repository.WhereText` return a new query record. The PHP builder is an object that `where` mutates in place, so the caller's builder also gains the conditions; that aliasing is not modelled.
- `Repository.ClampPage` and `Repository.Paginate` use unbounded integers. In PHP, `($page - 1) * $limit` overflows to a float beyond the 64-bit range; that is not modelled.
- `Repository.Paginate` and `Repository.Export` cannot fail except for the missing order column. In PHP, an exception thrown by the callback or by the database in `count()` or `get()` escapes them uncaught; the model's callback and `Store` are total, so that path is not modelled.
- `Repository.RecordHandler` takes the outcome of `findOrFail` as a parameter, because database failures are outside the model. `Repository.FindById` is that outcome when the database answers.
- `Repository.Paginate` does not model the query builder's check of the order direction. That check is library code; here any direction string is passed through.
- `Schema::hasColumn` is modelled as exact membership in the table's column set. The schema library's own name normalisation is not part of this model.
- `Repository.KeepKeys` uses string keys with exact comparison. PHP's integer keys of list arrays and `in_array`'s loose comparison of numeric strings are not modelled.
- `Php.Value` has no floating-point and no array case, so the truthiness of a float or array bound in the `where*` filter arrays (an empty array is falsy) is not modelled.
- The handlers take the callback's return value as already converted to `bool`. A `TypeError` raised by that conversion is not modelled.
- The `Log::error` calls are modelled as a list of log entries in the handlers' outcome. The text of `ModelNotFoundException`'s message is modelled as the entry `NoQueryResults(id)`.
- `findItemById`, `findItemByKey`, `findAllItems`, `findItemsByFilters`, `insert` and `truncate` are not modelled. Each is a single delegation to Eloquent with no logic of its own.
- `saveImage`, `updateImage` and `deleteImage` are not modelled. They are storage-disk I/O, and `deleteImage` depends on the `asset()` URL helper, which is not part of this model.
- `save`, `update` and `delete` are not modelled. They are placeholders that always return true.
- The constructor, `getModelClass`, `startCondition` and `getTableName` are not modelled as separate members. They are represented by the `Table` parameter and its name.
- `parent::replaceClass` and the file writing done by the generator base class are not modelled. They are library code, so the stub is taken as already processed by the parent. `Artisan::call` is not executed: the commands are returned as a list.
- src/RepositoryServiceProvider.php is not modelled. It is container wiring only.
