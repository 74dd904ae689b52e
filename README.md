# Streaming the `user_data` table: batches, pages and a running average

This project models the core of `python-generators-0x00`, a set of Python
generators that read the `user_data` table (`user_id`, `name`, `email`,
`age`) of a MySQL database incrementally:

- `stream_users_in_batches(batch_size)` walks the rows of one query,
  coerces each row's `age` with `int()`, collects the rows in a buffer,
  yields the buffer whenever it holds `batch_size` rows, and finally yields
  the non-empty remainder. `batch_processing(batch_size)` flattens those
  batches and keeps the users older than 25.
- `lazy_paginate(page_size)` fetches pages with
  `SELECT * … LIMIT page_size OFFSET offset` at offsets 0, `page_size`,
  2·`page_size`, … and stops at the first empty page. `paginate_users` turns
  every database error into an empty page.
- `calculate_average_age()` streams the age column as integers, keeps an
  integer running total and count, and returns 0.0 for an empty stream and
  total / count otherwise.

The database is replaced by values. The rows one query returns are a
sequence of `StoredRow`, whose `age` is the stored DECIMAL(3,0) value; the
coerced row is a `User` with an integer age. For pagination the table is a
`UserTable`: its rows plus the set of offsets at which the page query raises
a database error. Each generator is an eager method with a loop that
appends, in order, what the Python code yields.

Modules: `Users` (rows, the `int()` coercion, concatenation of batches),
`Batches` (`1-batch_processing.py`), `Pagination` (`2-lazy_paginate.py`),
`StreamAges` (`4-stream_ages.py`), and `Arith` (facts about division used
for the batch and page counts).

Specification functions: `Batches.Chunks` is a reference chunking, and
`Batches.IsBatching` is the shape a batch stream must have. The two agree:
`Chunks` has that shape, and any sequence with that shape equals `Chunks`.
`Pagination.IsPagination` says what the pages are: page k is the fetch at
offset k·`page_size`, every page is non-empty, and the next fetch is empty.
`StreamAges.Average` is the exact mean over `real`.

The model follows what the code does, including where that is easy to misread:

- The code does not require `batch_size > 0`. A size of 0 or less never
  equals the buffer length after an append, so a non-empty input comes out
  as one batch.
- The code does not require `page_size > 0`. A negative LIMIT or OFFSET is
  a MySQL syntax error, which `paginate_users` turns into an empty page, and
  LIMIT 0 selects nothing. So `lazy_paginate` yields nothing for such sizes
  and always terminates.
- The pages concatenate to the whole table only when no page query fails.
  A failed query stops the stream early, exactly as the end of the data
  would.
- Nothing in the code keeps ages non-negative. The model allows any
  stored value.

## Model

| member | source | states |
|---|---|---|
| `Users.AgeToInt` | python-generators-0x00/1-batch_processing.py:38 | `int()` of the stored decimal truncates toward zero: the result is within one of the value, on the same side of zero, and equals the value when it is integral |
| `Users.Coerce` | python-generators-0x00/1-batch_processing.py:38 | coercion keeps `user_id`, `name` and `email` unchanged and replaces only `age` by its integer value |
| `Batches.StreamUsersInBatches` | python-generators-0x00/1-batch_processing.py:34-48 | the batches concatenate, in order, to the coerced rows. No batch is empty. None is longer than `batch_size`. All but the last hold exactly `batch_size` rows. For `batch_size <= 0`, a non-empty table gives one batch and an empty table gives none |
| `Batches.ReadRow` | python-generators-0x00/1-batch_processing.py:36-44 | the loop invariant is kept when one row is read: the buffer stays shorter than `batch_size`, the emitted batches followed by the buffer are the rows read so far, and a buffer that reaches `batch_size` is emitted and replaced by an empty one |
| `Batches.ChunksIsBatching` | python-generators-0x00/1-batch_processing.py:34-48 | the reference chunking concatenates back to its input, has no empty batch, has no batch longer than the size, and has every batch but the last full |
| `Batches.BatchingIsUnique` | python-generators-0x00/1-batch_processing.py:42-48 | any sequence of batches with that shape is the reference chunking, so the batch stream is determined by the rows and the size |
| `Batches.ChunksCount` | python-generators-0x00/1-batch_processing.py:34-48 | for a positive size the reference chunking has ceil(N / size) batches, and none for zero rows |
| `Batches.ChunksLast` | python-generators-0x00/1-batch_processing.py:46-48 | for a positive size and a non-empty input, the last batch of the reference chunking holds N mod size rows, or size rows when the size divides N |
| `Batches.BatchingCount` | python-generators-0x00/1-batch_processing.py:34-48 | every batch stream with `batch_size > 0` has ceil(N / `batch_size`) batches, and none for zero rows |
| `Batches.BatchingLast` | python-generators-0x00/1-batch_processing.py:42-48 | in every batch stream of a non-empty table with `batch_size > 0`, the last batch holds N mod `batch_size` rows, or `batch_size` rows when that is 0 |
| `Batches.AboveThresholdIsSubsequence` | python-generators-0x00/1-batch_processing.py:71-73 | the selection is the input read at exactly the positions whose age exceeds 25, in ascending order, with no other positions |
| `Batches.AboveThresholdMembers` | python-generators-0x00/1-batch_processing.py:72-73 | a user is selected if and only if it occurs in the input and its age exceeds 25 |
| `Batches.BatchProcessing` | python-generators-0x00/1-batch_processing.py:69-73 | the result is the selection of users older than 25 from the coerced table, in table order. It does not depend on `batch_size` |
| `Pagination.PaginateUsers` | python-generators-0x00/2-lazy_paginate.py:22-41 | a negative size or offset, or a failing query, gives the empty page. Otherwise the page holds min(size, N − offset) rows, or none past the end, and row i of the page is table row offset + i, not coerced |
| `Pagination.LazyPaginate` | python-generators-0x00/2-lazy_paginate.py:54-65 | fetch k uses offset k·`page_size`. Page k is the result of that fetch. Every yielded page is non-empty. The fetch after the last page came back empty and is not yielded. A size of 0 or less, or an empty table, yields nothing. The loop terminates, with N − offset as its measure |
| `Pagination.PaginationIsUnique` | python-generators-0x00/2-lazy_paginate.py:54-65 | the fetches determine the pages: two page streams for the same table and size are equal |
| `Pagination.PagesArePrefix` | python-generators-0x00/2-lazy_paginate.py:54-65 | for a positive size, the first k pages concatenate to the first min(k·`page_size`, N) rows of the table |
| `Pagination.PagesAreBatches` | python-generators-0x00/2-lazy_paginate.py:58-65 | for a positive size, every page holds 1 to `page_size` rows and every page but the last is full |
| `Pagination.ErrorLooksLikeEnd` | python-generators-0x00/2-lazy_paginate.py:39-65 | the stream yields a prefix of the table, and when it stops before the end, the query at the next offset failed: a failure looks like the end of the data |
| `Pagination.PageContinuesTable` | python-generators-0x00/2-lazy_paginate.py:32 | a non-empty page fetched at an offset lies inside the table and continues it right after its first `offset` rows |
| `Pagination.PaginationReconstructs` | python-generators-0x00/2-lazy_paginate.py:32-65 | with no failing query inside the table and a positive size, the pages concatenate to the whole table. They equal the reference chunking of the table into `page_size` rows |
| `Pagination.PageCount` | python-generators-0x00/2-lazy_paginate.py:54-65 | with no failing query inside the table and a positive size, ceil(N / `page_size`) pages are yielded |
| `StreamAges.StreamUserAges` | python-generators-0x00/4-stream_ages.py:32-33 | one integer age per row, in row order, each the `int()` of that row's stored age |
| `StreamAges.CalculateAverageAge` | python-generators-0x00/4-stream_ages.py:51-62 | the result is 0.0 for an empty table, and otherwise the sum of the integer ages divided by their count. The loop keeps the total equal to the sum of the first k ages and the count equal to k |
| `StreamAges.SumBounds` | python-generators-0x00/4-stream_ages.py:55-57 | if every age lies in [lo, hi], the accumulated total lies in [lo·k, hi·k] for k ages |
| `StreamAges.AverageWithinBounds` | python-generators-0x00/4-stream_ages.py:59-62 | if the stream is non-empty and every age lies in [lo, hi], the average lies in [lo, hi] |
| `StreamAges.AverageExample` | python-generators-0x00/4-stream_ages.py:59-62 | ages 20 and 30 average to 25.0 |

## Left out

- Database access: `mysql.connector.connect`, cursors, `execute`,
  `fetchall` and `close`. These are foreign library calls. The query result
  is a parameter, a sequence of rows.
- The error paths of `stream_users_in_batches` and `stream_user_ages`
  (print the error, return). An error stops these streams early. For the
  batch stream, the rows still in the buffer are then lost. The model
  treats their query as always succeeding. For `paginate_users` the error
  path is modelled, as the offsets in `UserTable.failsAt`.
- Row order between separate page queries: the model assumes every
  `LIMIT … OFFSET …` query sees the same rows in the same order. SQL does
  not promise this without ORDER BY.
- `StreamAges.CalculateAverageAge`: returns the exact quotient over
  `real`, not the IEEE double that Python's `/` produces. Rounding is not
  modelled.
- `Users.AgeToInt`: models `int()` on a decimal as truncation toward zero
  of a real number. Python's `Decimal` type and the three-digit limit of
  the DECIMAL(3,0) column are not modelled.
- Generator laziness, suspension at each `yield`, and cursor cleanup when
  a consumer stops early. These are runtime concerns. Each stream is an
  eager sequence of everything it would yield.
- `0-stream_users.py`: it fetches all rows and applies the same `age`
  coercion, which `Users.Coerce` already covers.
- `seed.py`: connection probing, database and table creation, and CSV
  import. These rest on the database, the file system and the `uuid`
  library.
- Arguments that are not integers, such as a float `batch_size` or
  `page_size`.
