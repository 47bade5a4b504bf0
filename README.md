# rb_pager keyset paginator, modelled in Dafny

rb_pager adds a `pager(after:, before:, limit:, sort:)` class method to ActiveRecord models.
It returns one page of records together with a `prev_cursor` and a `next_cursor`. A cursor is
the strict Base64 of `col:value,col:value`, read off the first or last record of the page.
Passing a cursor back as `after` or `before` selects the rows on the far side of that record
through an SQL row comparison `(c1, …, cn) > (v1, …, vn)` or `<`.

The model covers these parts:

- **The sort string.** `construct_sorted_columns` / `sorted_columns` turn `"-created_at,name"`
  into an ordered column→direction map and drop names that are not attributes.
- **The cursor codec.** `decode` and `Base64Encoder` are modelled down to the bytes. This
  includes a full model of RFC 4648 section 4 Base64 with Ruby's `strict_decode64` checks, and
  Ruby's `split(',')` and `split(':', 2)` semantics.
- **Boundaries and direction.** `apply_after` and `apply_before` build the boundaries and set
  the `@direction` flag.
- **The page.** `collection` is a filter, an ORDER BY and a LIMIT over a sequence of rows.
- **The cursors.** `cursor` derives both cursors and applies its suppression rules, using
  `left_over?` and `total_size` from the relation.
- **`Configuration`.** The settings object with defaults 20 and 100 and the clamping `limit=`.
- **The legacy `Pager` module.** The earlier forward-only paginator with its own sort parser and
  a JSON next cursor.

The database is a `seq<Row>`, and a row maps column names to their values as text. A missing
column reads as the empty text.

Each stateful source file keeps its form in the model:

- `RbPager.Model` is a class whose fields are the class-level instance variables one `pager`
  call resets and memoises. Every method is proved to leave them as the functions of
  `PagerSpec` say.
- `ActiveRecordRelationMethods.Relation` memoises `total_size` and `left_over?` in fields.
- `Configuration.Configuration` has the two setters.

`PagerProperties` proves what a call promises:

- the page is the first rows of the scope in sort order;
- which cursor is suppressed when;
- a cursor read off a row decodes back to that row's values;
- passing it back selects exactly the rows on one side of that row.

For a sort that mixes directions the boundary compares the whole tuple in one direction.
`ResumeAfter` and `ResumeBefore` state which direction that is, so the scope they describe does
not follow the sort's own mixed order.

Where the code and its description differ, the model follows the code:

- A mixed sort takes the non-ascending branch of `apply_after` and `apply_before`
  (`values.all? :asc`).
- `encode` is padded strict Base64.
- A cursor pair without `:` maps its key to nil. This is not an error.
- The empty token decodes to an empty map, not to nil.
- A cursor writes only the sort columns. Under a sort on one non-unique column, such as `name`
  alone, rows that tie with the boundary record on that column are skipped by the next page.
  The row comparison is strict, and `PagerProperties.ResumeAfter` states exactly which rows it
  selects.

## Model

| member | source | states |
|---|---|---|
| Configuration.Configuration.constructor | lib/rb_pager/configuration.rb:5-8 | a new configuration has limit 20 and max_limit 100 |
| Configuration.Configuration.SetLimit | lib/rb_pager/configuration.rb:10-12 | `limit=` stores min(val, max_limit); afterwards limit <= max_limit, a value within the ceiling is kept as given, max_limit is unchanged |
| Configuration.Configuration.SetMaxLimit | lib/rb_pager/configuration.rb:3 | `max_limit=` stores its value unclamped and does not re-clamp the stored limit |
| Configuration.Min | lib/rb_pager/configuration.rb:11 | the result is one of the two arguments and no larger than either |
| ActiveRecordRelationMethods.Relation.constructor | lib/rb_pager/orm/active_record_relation_methods.rb:1-37 | a new relation holds its page and scope with both memos unset |
| ActiveRecordRelationMethods.Relation.TotalSize | lib/rb_pager/orm/active_record_relation_methods.rb:12-33 | `total_size` is the number of rows the filters admit (limit and order removed), computed once and then cached |
| ActiveRecordRelationMethods.Relation.IsLeftOver | lib/rb_pager/orm/active_record_relation_methods.rb:4-9 | `left_over?` is 0 < page size < total_size; a true result is cached, a false one is recomputed; total_size is consulted only for a non-empty page without a cached true |
| Text.IndexOf | lib/rb_pager/base64_encoder.rb:14 | the index of the first occurrence of the separator, or the length when there is none |
| Text.DropTrailingEmpty | lib/rb_pager/base64_encoder.rb:13 | Ruby `split` drops exactly the trailing empty pieces: the result is a prefix, ends in a non-empty piece, and only empties were dropped |
| Text.SplitFirst | lib/rb_pager/base64_encoder.rb:14 | `split(':', 2)`: no pieces for empty text, the whole text as the one piece when the separator is absent, otherwise the text before the first separator and the rest |
| Text.PiecesOfJoin | lib/rb_pager/base64_encoder.rb:13 | splitting pieces joined with a separator they avoid gives the pieces back |
| Text.SplitJoin | lib/rb_pager/base64_encoder.rb:13 | `split(',')` of a join of non-empty pieces without `,` gives the pieces back |
| Text.SplitAvoidsSep | lib/rb_pager/base64_encoder.rb:13 | no piece of a split contains the separator |
| Text.JoinPieces | lib/rb_pager/base64_encoder.rb:13 | joining the raw pieces of a text gives the text back |
| Text.LessIrreflexive | lib/rb_pager/orm/pager_active_record.rb:42-44 | no value sorts before itself |
| Text.LessAsymmetric | lib/rb_pager/orm/pager_active_record.rb:42-44 | two values never sort before each other |
| Text.LessTransitive | lib/rb_pager/orm/pager_active_record.rb:42-44 | the value order is transitive |
| Text.LessTotal | lib/rb_pager/orm/pager_active_record.rb:42-44 | any two distinct values are ordered one way or the other |
| OrderedMap.Position | lib/rb_pager/base64_encoder.rb:12-16 | the slot of the first entry with the key, or the size when absent |
| OrderedMap.Get | lib/rb_pager/base64_encoder.rb:12-16 | a lookup succeeds exactly for the hash's keys |
| OrderedMap.Put | lib/rb_pager/orm/pager_active_record.rb:85 | `h[k] = v` keeps an existing key in its place and appends a new key last |
| OrderedMap.GetPut | lib/rb_pager/orm/pager_active_record.rb:85 | after `h[k] = v`, k reads v and every other key reads what it did |
| OrderedMap.PutDistinct | lib/rb_pager/orm/pager_active_record.rb:85 | assignment never duplicates a key |
| OrderedMap.DedupMembers | lib/rb_pager/base64_encoder.rb:12-16 | removing repeats keeps exactly the same keys |
| OrderedMap.FromPairsKeys | lib/rb_pager/base64_encoder.rb:12-16 | `Hash[pairs]` has each key once, in order of first occurrence |
| OrderedMap.FromPairsGet | lib/rb_pager/base64_encoder.rb:12-16 | `Hash[pairs]` maps each key to its last value |
| OrderedMap.FromDistinctPairs | lib/rb_pager/base64_encoder.rb:12-16 | pairs with distinct keys are their own hash |
| Base64.SextetOf | lib/rb_pager/base64_encoder.rb:11 | the alphabet index of a Base64 letter is the sextet that letter encodes |
| Base64.LetterIsLetter | lib/rb_pager/base64_encoder.rb:5 | every sextet encodes to a letter of the RFC 4648 section 4 alphabet, and back |
| Base64.OctetsOfSextets | lib/rb_pager/base64_encoder.rb:5 | three bytes split into four sextets are rebuilt exactly |
| Base64.SextetsOfOctets | lib/rb_pager/base64_encoder.rb:11 | four sextets packed into three bytes split back exactly |
| Base64.Encode | lib/rb_pager/base64_encoder.rb:4-6 | non-empty input encodes to at least one four-letter group |
| Base64.DecodeGroup | lib/rb_pager/base64_encoder.rb:11 | four letters decode to three bytes |
| Base64.DecodeLast | lib/rb_pager/base64_encoder.rb:11 | a final group decodes to one, two or three bytes, or is refused |
| Base64.GroupRoundTrip | lib/rb_pager/base64_encoder.rb:4-17 | a full group decodes back to its three bytes |
| Base64.TwoRoundTrip | lib/rb_pager/base64_encoder.rb:4-17 | a group padded with one `=` decodes back to its two bytes |
| Base64.OneRoundTrip | lib/rb_pager/base64_encoder.rb:4-17 | a group padded with `==` decodes back to its byte |
| Base64.DecodeEncode | lib/rb_pager/base64_encoder.rb:4-17 | `strict_decode64(strict_encode64(s)) == s` for every byte string |
| Base64.GroupCanonical | lib/rb_pager/base64_encoder.rb:11 | a group strict decoding accepts is the encoding of what it decodes to |
| Base64.LastCanonical | lib/rb_pager/base64_encoder.rb:11 | a final group strict decoding accepts (zero unused bits, padding only at the end) is canonical |
| Base64.EncodeDecode | lib/rb_pager/base64_encoder.rb:4-17 | every text strict decoding accepts is the encoding of its decoded bytes |
| Base64.DecodeIff | lib/rb_pager/base64_encoder.rb:4-17 | strict decoding and strict encoding are inverse bijections: decode(t) == s iff encode(s) == t |
| Base64Encoder.Pair | lib/rb_pager/base64_encoder.rb:14 | a piece yields a pair exactly when it is non-empty (`Hash[]` raises on an empty piece); a piece without `:` is a key with a nil value; otherwise the key is the text before the first `:` and the value everything after it |
| Base64Encoder.Decode | lib/rb_pager/base64_encoder.rb:8-17 | a nil cursor decodes to nil and only a nil cursor does; text that is not strict Base64 is refused |
| Base64Encoder.PairsIff | lib/rb_pager/base64_encoder.rb:12-16 | the pieces all make pairs exactly when none is empty, one pair per piece |
| Base64Encoder.DecodedKeysDistinct | lib/rb_pager/base64_encoder.rb:12-16 | a decoded cursor has each key once |
| Base64Encoder.DecodeEmptyPair | lib/rb_pager/base64_encoder.rb:12-16 | decoding fails with the empty-pair error exactly when the decoded text has an empty `,` piece |
| Base64Encoder.PairOfEntry | lib/rb_pager/base64_encoder.rb:14 | `key:value` with no `:` in the key splits back into key and value, even when the value holds `:` |
| Base64Encoder.PairsOfEntries | lib/rb_pager/base64_encoder.rb:12-16 | encodable entries written as texts split back into the same pairs |
| Base64Encoder.RoundTrip | lib/rb_pager/base64_encoder.rb:4-17 | decode(encode(join(',', k:v))) gives back the entries when keys are distinct and free of `,` and `:`, and values are free of `,` |
| Base64Encoder.DecodeLastWins | lib/rb_pager/base64_encoder.rb:12-16 | for a repeated key the decoded cursor keeps the last value |
| Store.KeyLessAsymmetric | lib/rb_pager/orm/pager_active_record.rb:101 | ORDER BY never puts two rows each before the other |
| Store.KeyLessSplits | lib/rb_pager/orm/pager_active_record.rb:101 | if c precedes a, then any b is after c or before a |
| Store.SortedAll | lib/rb_pager/orm/pager_active_record.rb:101 | in a sorted sequence no later row precedes an earlier one |
| Store.PrependSorted | lib/rb_pager/orm/pager_active_record.rb:101 | a row not after the head of a sorted sequence can be put in front |
| Store.SortedTail | lib/rb_pager/orm/pager_active_record.rb:101 | the tail of a sorted sequence is sorted |
| Store.Insert | lib/rb_pager/orm/pager_active_record.rb:101 | inserting one row keeps a sorted sequence sorted and adds exactly one row |
| Store.OrderBy | lib/rb_pager/orm/pager_active_record.rb:101 | ORDER BY returns as many rows as it is given, sorted |
| Store.InsertPermutes | lib/rb_pager/orm/pager_active_record.rb:101 | insertion adds the row and nothing else |
| Store.OrderByPermutes | lib/rb_pager/orm/pager_active_record.rb:101 | ORDER BY neither adds nor drops a row |
| Store.Take | lib/rb_pager/orm/pager_active_record.rb:103 | LIMIT n keeps the first min(n, size) rows; n <= 0 is modelled as LIMIT 0, no rows |
| PagerSpec.KeptFields | lib/rb_pager/orm/pager_active_record.rb:83-86 | every kept field names an attribute; `KeptFieldsExact` states which fields are kept |
| PagerSpec.KeptFieldsExact | lib/rb_pager/orm/pager_active_record.rb:83-86 | a field is kept, with the direction its sign gives (`-x` is `(x, desc)`), exactly when its unsigned name is an attribute; nothing else is kept |
| PagerSpec.ParseSortExample | lib/rb_pager/orm/pager_active_record.rb:79-89 | a sort string shaped like `-created_at,name` parses to `created_at` descending, then `name` ascending |
| PagerSpec.ParseSortShape | lib/rb_pager/orm/pager_active_record.rb:72-89 | the parsed sort holds each kept attribute once, in order of first mention, with its last direction, and no column contains `,` |
| PagerSpec.KeptFieldsAvoidSep | lib/rb_pager/orm/pager_active_record.rb:81-86 | fields taken from a `,` split keep no `,` in their names |
| PagerSpec.Redirected | lib/rb_pager/orm/pager_active_record.rb:20-59 | once `:prev`, the direction is never reset to `:next` |
| PagerSpec.TupleBeyondToExpanded | lib/rb_pager/orm/pager_active_record.rb:42-50 | the row comparison `(c…) > (v…)` implies its expansion: equal on a prefix, beyond at the next column |
| PagerSpec.ExpandedToTupleBeyond | lib/rb_pager/orm/pager_active_record.rb:42-50 | the expansion implies the row comparison |
| PagerSpec.TupleBeyondExpanded | lib/rb_pager/orm/pager_active_record.rb:42-50 | the row comparison holds exactly when some column is beyond with every earlier column equal, NULLs never compare |
| PagerSpec.Where | lib/rb_pager/orm/pager_active_record.rb:99-100 | `where(b)` keeps exactly the rows the boundary admits; no boundary admits all |
| PagerSpec.WhereCounts | lib/rb_pager/orm/pager_active_record.rb:99-100 | `where` keeps each admitted row exactly as many times as the table holds it and no other row, so `total_size` counts admitted rows with their repeats |
| PagerSpec.ScopeOf | lib/rb_pager/orm/pager_active_record.rb:99-100 | the scope is exactly the rows both boundaries admit |
| PagerSpec.CursorSpec | lib/rb_pager/orm/pager_active_record.rb:115-117 | a cursor always records at least one column: the primary key under an empty sort |
| PagerSpec.CursorEntries | lib/rb_pager/orm/pager_active_record.rb:115-128 | the cursor's keys are the sort columns in sort order, or the primary key alone |
| PagerSpec.Paginate | lib/rb_pager/orm/pager_active_record.rb:9-23 | the call fails with InvalidLimitValueError exactly when a limit below 1 is given |
| PagerProperties.RecordsAreFirstRows | lib/rb_pager/orm/pager_active_record.rb:98-104 | the page is min(page_limit, scope size) scope rows, sorted, a sub-multiset of the scope (no row repeated beyond its count there), and holds every scope row that sorts before one of its rows |
| PagerProperties.SortedPosition | lib/rb_pager/orm/pager_active_record.rb:101 | in a sorted page a row that sorts before another sits earlier |
| PagerProperties.LeftOverMeansMore | lib/rb_pager/orm/active_record_relation_methods.rb:7 | `left_over?` holds exactly when the page limit is positive and below the scope size |
| PagerProperties.PageShape | lib/rb_pager/orm/pager_active_record.rb:9-23 | a successful call pages the scope with the given limit, unclamped by max_limit, or the configured one; the records are sorted, a sub-multiset of the table's rows, and every one is a table row both boundaries admit |
| PagerProperties.TokenNonEmpty | lib/rb_pager/orm/pager_active_record.rb:131-134 | a cursor of at least one entry is never the empty string |
| PagerProperties.CursorRules | lib/rb_pager/orm/pager_active_record.rb:110-135 | both cursors empty for an empty scope; otherwise prev is empty iff first page or `:prev` with nothing left over, next is empty iff not first page, `:next` and nothing left over; prev is read off the first record and next off the last |
| PagerProperties.FirstPageCursors | lib/rb_pager/orm/pager_active_record.rb:131 | a call with neither cursor has no prev cursor and a next cursor read off its last record; an empty table gives two empty cursors |
| PagerProperties.WithDir | lib/rb_pager/orm/pager_active_record.rb:41 | setting every direction keeps the columns and leaves a uniform sort unchanged |
| PagerProperties.TupleBeyondIsKeyLess | lib/rb_pager/orm/pager_active_record.rb:38-70 | `(cols) > (row's values)` holds exactly when x sorts after the row ascending, `<` when it sorts after descending |
| PagerProperties.DescIsReversedAsc | lib/rb_pager/orm/pager_active_record.rb:38-70 | descending order on the columns is ascending order reversed |
| PagerProperties.CursorDecodes | lib/rb_pager/orm/pager_active_record.rb:27-36 | a cursor read off a row decodes to the cursor columns in order, each with that row's value |
| PagerProperties.ResumeAfter | lib/rb_pager/orm/pager_active_record.rb:38-53 | passing the next cursor back as `after` selects exactly the rows beyond the last record, and turns the direction to `:prev` iff the sort is not all ascending |
| PagerProperties.ResumeBefore | lib/rb_pager/orm/pager_active_record.rb:55-70 | passing the prev cursor back as `before` selects exactly the rows short of the first record, and turns the direction to `:prev` iff the sort is all ascending |
| RbPager.Model.constructor | lib/rb_pager/orm/pager_active_record.rb:5-7 | the model class starts with no sort, cursors or memos and direction `:next` |
| RbPager.Model.ConstructSortedColumns | lib/rb_pager/orm/pager_active_record.rb:79-89 | the loop builds the parse of the sort string |
| RbPager.Model.SortedColumnsMemo | lib/rb_pager/orm/pager_active_record.rb:72-77 | `sorted_columns` returns and memoises the parse of `@sort`, `{}` for nil |
| RbPager.Model.ApplyAfter | lib/rb_pager/orm/pager_active_record.rb:38-53 | the after boundary (`>` under an all-ascending sort, `<` otherwise, none without a cursor) and `@direction` turned to `:prev` exactly in the `<` case |
| RbPager.Model.ApplyBefore | lib/rb_pager/orm/pager_active_record.rb:55-70 | the before boundary (`<` under an all-ascending sort, `>` otherwise, none without a cursor) and `@direction` turned to `:prev` exactly in the `<` case |
| RbPager.Model.Collection | lib/rb_pager/orm/pager_active_record.rb:98-104 | `collection` is memoised: a second call returns the same relation and changes nothing; a first call builds the scope both boundaries admit and its first rows in sort order |
| RbPager.Model.CursorTokens | lib/rb_pager/orm/pager_active_record.rb:113-128 | the loop writes the prev and next cursors read off the first and last records |
| RbPager.Model.Cursor | lib/rb_pager/orm/pager_active_record.rb:110-135 | `cursor` returns the cursors whose rules CursorRules states |
| RbPager.Model.CreatePaginateMeta | lib/rb_pager/orm/pager_active_record.rb:91-96 | the page and cursors of the stored inputs, with the direction both boundaries set |
| RbPager.Model.Pager | lib/rb_pager/orm/pager_active_record.rb:9-23 | the call returns the page Paginate describes; a limit below 1 is rejected before any state changes; on success the state holds the page limit, sort, decoded cursors and direction |
| LegacyPager.KnownNames | lib/pager/orm/pager_active_record.rb:69-70 | every kept field is, sign and all, an attribute name; `KnownNamesExact` states which fields are kept |
| LegacyPager.KnownNamesExact | lib/pager/orm/pager_active_record.rb:69-70 | a field is kept exactly when it is, sign and all, an attribute name; nothing else is kept |
| LegacyPager.LegacyParseExample | lib/pager/orm/pager_active_record.rb:62-77 | for `-created_at,name` only `name` is kept, ascending, since `-created_at` is no attribute name |
| LegacyPager.LegacyKeptAscending | lib/pager/orm/pager_active_record.rb:69-75 | with attribute names that carry no sign, the kept columns are the known names in input order, all ascending |
| LegacyPager.BuildOrderExpression | lib/pager/orm/pager_active_record.rb:62-78 | no columns and no orders for a nil sort; otherwise the orders run parallel to the kept fields and the column map is their hash |
| LegacyPager.FilterWithPrimaryKey | lib/pager/orm/pager_active_record.rb:48-60 | the filter is TRUE for a row exactly when the first cursor column is beyond its value and every later one equals its value |
| LegacyPager.Filter | lib/pager/orm/pager_active_record.rb:17 | `where(pred)` keeps exactly the rows the predicate is TRUE for |
| LegacyPager.CursorMapContents | lib/pager/orm/pager_active_record.rb:87-97 | the next-cursor map holds `id` first with the last record's primary-key value (`#id`), then each sort column once, each with the last record's value of it |
| LegacyPager.PutValues | lib/pager/orm/pager_active_record.rb:93 | `merge!` of a row value keeps every value the row's own and the first key in place |
| LegacyPager.NextCursor | lib/pager/orm/pager_active_record.rb:87-97 | the loop builds the next cursor: `''` unless left over, otherwise the encoded map of the last record |
| LegacyPager.Pager | lib/pager/orm/pager_active_record.rb:9-21 | the legacy call returns the page LegacyPaginate describes |
| LegacyPager.FilterEverything | lib/pager/orm/pager_active_record.rb:13-14 | with no `after` every row is in scope, in order |
| LegacyPager.LegacyFirstPage | lib/pager/orm/pager_active_record.rb:9-21 | with no `after` the page is the first `limit || configuration.limit` rows in sort order; the next cursor is `''` unless rows remain, then read off the last record; an empty table gives no records and `''` |
| LegacyPager.LegacyAfter | lib/pager/orm/pager_active_record.rb:25-33 | an `after` token that is not Base64 or not JSON raises; with a sort it raises ArgumentError; without one the page holds only rows whose primary key is beyond the cursor's |

## Left out

- ActiveRecord and Arel mechanics are not modelled: SQL generation, `extending`, `build_quoted`, and the `count` / `except` / `references_eager_loaded_tables?` plumbing of `total_size`. A relation is its page and its filtered scope.
- SQL comparison is modelled on text: values compare as byte strings. Database collation and column types are not modelled, and a missing column reads as the empty text.
- A cursor pair without `:` gives a nil value, which the boundary treats as SQL NULL (never TRUE). An unknown column in a cursor reads as the empty text, where SQL would raise.
- A cursor that decodes to `{}` builds the comparison `() > ()`, which is an SQL error. The model admits no row for it.
- Store.Take: a limit <= 0 is modelled as `LIMIT 0`, an empty page. SQL engines differ on a negative limit: SQLite returns every row and PostgreSQL raises. A negative limit reaches SQL through a negative configured limit, and in the legacy pager through an explicit `limit`, which it never checks. So for a negative limit `LegacyPager.Pager` and `LegacyPager.LegacyFirstPage` describe an empty page.
- With an empty page over a non-empty scope, `records.first` is nil and `cursor` calls `send` on it, which raises `NoMethodError`. The model reports this as the `NoRecord` error.
- The attribute type lookup and `rfc3339(9)` are taken as given: `Table.rfc3339` is a function field applied to datetime columns.
- Without a sort the code passes `{}` to `order`. The model keeps table order there and claims no primary-key ordering.
- SQL leaves rows that tie on every sort column in no particular order. The model picks table order for them: `Store.OrderBy` is a stable insertion sort.
- `@records` and `records` are not modelled separately. They are the relation's loaded page.
- JSON in the legacy module is a codec parameter: `to_json` and `JSON.parse` are opaque functions.
- `filter_with_ordered_columns` calls `gt`/`lt` with no operand and always raises. The legacy sorted-after path is modelled as that `ArgumentError`.
- `LegacyPager.FilterWithPrimaryKey` is modelled standalone. `create_custom_expression` reaches it only after `filter_with_ordered_columns` has raised.
- The legacy cursor's `id` entry holds the primary key's value, as ActiveRecord's `#id` gives it; a sort column named `id` is read the same way. `to_json` is taken to write the `:id` symbol key and a string key `id` as one key, which keeps the first position and the last value.
- The private `decode` of the paginator duplicates `Base64Encoder#decode` and is modelled once, as `Base64Encoder.Decode`.
- `RbPager.Model.CreatePaginateMeta`: its ghost parameters only name the stored field values so that its result can be stated.
- `PagerProperties.CursorDecodes`, `PagerProperties.ResumeAfter` and `PagerProperties.ResumeBefore` are proved only for sorts without datetime columns and for cursor values without `,`. The formatted datetime text is opaque, and a `,` in a value splits the pair.
- The inline `ActiveRecordRelationMethods` of lib/rb_pager/orm/pager_active_record.rb:138-169 duplicates lib/rb_pager/orm/active_record_relation_methods.rb and is modelled once.
- The memos live in class-level instance variables shared by every caller of the model class. Concurrent `pager` calls on one class can overwrite each other's `@sort`, `@after`, `@collection` and the rest. The model has one caller at a time.
- `RbPager.configure`, the `ActiveRecord::Base` inclusion in lib/rb_pager.rb, and the singleton configuration are not modelled. The configured limit is a parameter of the call.
