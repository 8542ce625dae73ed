# Cinema backend: transaction status rules and schema helpers

This project models two pieces of logic from a Laravel cinema backend.

- The **transaction controller's status rules**:
  - `normalizeStatus` maps a free-form status to a canonical one, using PHP truthiness, `trim` and `strtolower`, then a synonym table.
  - The listing's status filter and its `per_page` clamp.
  - The status defaulting of `store` and `update`.
  - `setStatus`, which validates the request and finds the row. It normalises the status and works out the effective time: the client time, then the client timezone, then the server clock. It stamps or clears `paid_at` and `tanggal_transaksi`. On cancellation it releases the linked tickets to `tersedia`.
- The **schema and primary-key helpers**:
  - `table_has_col`, `pick_auth_table` and `auth_pk_col`.
  - `table_smallest_missing_pk` and the three-stage `table_insert_with_pk`: the native insert, then the least missing key, then max + 1.
  - `canonical_jadwal`, which groups schedules by slot and takes the minimum id.
  - The role and token update of `ensure_admin_user`.

Files:

| file | module | contents |
|---|---|---|
| `wrappers.dfy` | `Wrappers` | `Option` and `Result` |
| `php.dfy` | `Php` | string truthiness, `??`, `trim()` with its default character list, ASCII `strtolower()` |
| `transaksi.dfy` | `Transaksi` | the controller. `TransactionStore` is a class holding `transactions`, `tickets` and `details`; `SetStatus` updates the first two in place and only reads `details` |
| `schema.dfy` | `Schema` | cells, rows, the schema catalogue, `table_has_col`, `pick_auth_table`, `auth_pk_col` |
| `primary_key.dfy` | `PrimaryKey` | the gap search, SQL `MAX`, the `Table` class (its rows change in place), `table_insert_with_pk` |
| `jadwal.dfy` | `Jadwal` | `canonical_jadwal` |
| `admin_user.dfy` | `AdminUser` | the update decision and the update of `ensure_admin_user` |

Abstractions:

- The store, the clock, the date parser and the random token are parameters:
  - a `Catalog` of tables and their columns, with a flag for whether introspection works at all;
  - fault flags for each store call of `table_insert_with_pk` (the other store calls are taken to succeed);
  - a `Clock` that holds the server time, a parse function and the set of timezone names it accepts;
  - opaque `Cell` values for the token and the time.
- A column value is `Null`, `Num(n)` or `Text(s)`:
  - `Num(n)` is a value `is_numeric()` accepts, carried as its `(int)` cast;
  - `Text(s)` is any other string.
- A row lacking a column reads as `Null`. Matching a `Null` value in a `where` matches `Null` cells, as Laravel's `whereNull` does.

Three behaviours a reader might expect of this code do not hold, and the model follows the code:

- **Idempotence.** One might expect `normalizeStatus` to be idempotent for every input. It is not:
  - a whitespace-only status such as `" "` normalises to `""`;
  - `""` is falsy and normalises to null.
  `Transaksi.NormalizeBlankNotIdempotent` proves this. `Transaksi.NormalizeIdempotent` proves idempotence for every input whose result is truthy.
- **Errors of the max + 1 stage.** One might expect only the original error of the native insert to surface once every fallback fails. Instead, a failure of the max + 1 query or of its insert escapes as that stage's own error. `PrimaryKey.TableInsertWithPk` returns `MaxQueryError` or `MaxInsertError` in those cases.
- **When max + 1 runs.** The max + 1 stage runs only when computing the gap throws. When the insert with the gap key fails, the key is already in `$data`, so the code rethrows the original error.

## Model

| member | source | states |
|---|---|---|
| Php.Trim | app/Http/Controllers/Api/TransaksiController.php:26 | the result of `trim()` has no trim character at either end and is no longer than the input; a trimmed input comes back unchanged; the result is empty exactly when every character is one `trim()` strips |
| Php.TrimIsMiddle | app/Http/Controllers/Api/TransaksiController.php:26 | `trim()` returns the contiguous middle of the input that starts after its leading trim characters; everything dropped after it is trim characters |
| Php.LowerChar | app/Http/Controllers/Api/TransaksiController.php:26 | `strtolower()` on one character moves `A`..`Z` up by 32, leaves every other character alone, and never yields an upper-case letter |
| Php.ToLower | app/Http/Controllers/Api/TransaksiController.php:26 | `strtolower()` keeps the length and lowers each character in place |
| Php.ToLowerFixed | app/Http/Controllers/Api/TransaksiController.php:26 | a string without upper-case letters is its own lower-case form |
| Php.ToLowerIdempotent | app/Http/Controllers/Api/TransaksiController.php:26 | lower-casing twice is lower-casing once |
| Php.ToLowerKeepsTrimmed | app/Http/Controllers/Api/TransaksiController.php:26 | lower-casing a trimmed string leaves it trimmed |
| Php.Truthy | app/Http/Controllers/Api/TransaksiController.php:23 | PHP's truth value of a string: every truthy string is non-empty, and every string of two or more characters is truthy (only `""` and `"0"` are falsy) |
| Php.TruthyOpt | app/Http/Controllers/Api/TransaksiController.php:133 | the truth value of a nullable string: null is falsy, and otherwise as for a string |
| Php.Coalesce | app/Http/Controllers/Api/TransaksiController.php:130-131 | definition of `??`: the left value when it is not null, else the right one; the result is null only when both are |
| Transaksi.Synonym | app/Http/Controllers/Api/TransaksiController.php:27-33 | the synonym table returns its input, `sukses` or `batal` |
| Transaksi.SynonymSukses | app/Http/Controllers/Api/TransaksiController.php:27-29 | the synonym table yields `sukses` exactly for `success`, `completed`, `selesai` and `sukses` |
| Transaksi.SynonymBatal | app/Http/Controllers/Api/TransaksiController.php:30-32 | the synonym table yields `batal` exactly for `cancel`, `canceled`, `batal` and `failed` |
| Transaksi.NormalizeStatus | app/Http/Controllers/Api/TransaksiController.php:21-34 | the result is null exactly when the input is null, `""` or `"0"`; a non-null result is trimmed and lower case |
| Transaksi.NormalizeClean | app/Http/Controllers/Api/TransaksiController.php:26-33 | a truthy, trimmed, lower-case input only goes through the synonym table |
| Transaksi.NormalizeToSukses | app/Http/Controllers/Api/TransaksiController.php:23-29 | the result is `sukses` if and only if the input is truthy and its lower-cased trimmed form is a success word or `sukses` |
| Transaksi.NormalizeToBatal | app/Http/Controllers/Api/TransaksiController.php:23-32 | the result is `batal` if and only if the input is truthy and its lower-cased trimmed form is a cancel word |
| Transaksi.NormalizePassesThrough | app/Http/Controllers/Api/TransaksiController.php:26-33 | any other truthy input comes back as `strtolower(trim(x))` |
| Transaksi.NormalizeBlank | app/Http/Controllers/Api/TransaksiController.php:23-26 | a non-empty input of trim characters only normalises to `""`, not to null |
| Transaksi.NormalizeIdempotent | app/Http/Controllers/Api/TransaksiController.php:21-34 | normalising a result that is truthy again returns it unchanged |
| Transaksi.NormalizeBlankNotIdempotent | app/Http/Controllers/Api/TransaksiController.php:23-26 | `" "` normalises to `""`, and `""` normalises to null, so full idempotence does not hold |
| Transaksi.VocabularyIsClean | app/Http/Controllers/Api/TransaksiController.php:122 | each word the status change accepts is truthy, trimmed and lower case |
| Transaksi.VocabularySynonyms | app/Http/Controllers/Api/TransaksiController.php:122 | the synonym table sends each accepted word to `pending`, `sukses` or `batal`: to `sukses` exactly for `sukses`, `success` and `selesai`, and to `batal` exactly for `batal`, `cancel` and `canceled` |
| Transaksi.VocabularyNormalizes | app/Http/Controllers/Api/TransaksiController.php:122-129 | every accepted word normalises, never to null, to the canonical status it means |
| Transaksi.StatusFilter | app/Http/Controllers/Api/TransaksiController.php:42-44 | definition of the listing's status filter: it filters on the normalised status exactly when that is truthy |
| Transaksi.PerPage | app/Http/Controllers/Api/TransaksiController.php:78 | the page size is within [5, 100]; it is 15 when absent, the value itself when in range, and 5 or 100 when below or above the range |
| Transaksi.StoreStatus | app/Http/Controllers/Api/TransaksiController.php:96 | create always persists a status: `pending` when the field is absent, null or falsy, otherwise the normalised value |
| Transaksi.UpdatedStatus | app/Http/Controllers/Api/TransaksiController.php:105-108 | update keeps the status when the field is absent, writes null when it is sent as null, and otherwise defaults exactly as create does |
| Transaksi.CallSitesAgree | app/Http/Controllers/Api/TransaksiController.php:96-128 | for every accepted word, create, update and the status change write the same status |
| Transaksi.ValidStatusRequest | app/Http/Controllers/Api/TransaksiController.php:121-125 | the validation of the status change: the status is one of the seven accepted words and a client timezone has at most 60 characters; as a consequence of the word list, an accepted status is truthy and at most 8 characters long |
| Transaksi.ParsedClientTime | app/Http/Controllers/Api/TransaksiController.php:133-135 | a truthy raw client time gives exactly what the parser returns for it, and a falsy or null one gives no time |
| Transaksi.EffectiveTime | app/Http/Controllers/Api/TransaksiController.php:130-147 | the server time when the client time (input before header) is falsy or does not parse; otherwise the parsed instant, moved into the client timezone (input before header) only when that is truthy and valid, and otherwise left in its own zone |
| Transaksi.ResolveNow | app/Http/Controllers/Api/TransaksiController.php:130-147 | the step-by-step reassignment of `$now` computes the effective time |
| Transaksi.DetailTicketIds | app/Http/Controllers/Api/TransaksiController.php:161 | a ticket id is plucked exactly when some detail row of the transaction carries it |
| Transaksi.FilterTruthy | app/Http/Controllers/Api/TransaksiController.php:161 | `filter()` keeps exactly the non-null, non-zero ids |
| Transaksi.LinkedTickets | app/Http/Controllers/Api/TransaksiController.php:161 | the ids a cancellation releases: no more than there are detail rows, and none of them 0 |
| Transaksi.LinkedTicketsIff | app/Http/Controllers/Api/TransaksiController.php:160-165 | a ticket is released if and only if a detail row of the transaction names it by a truthy id |
| Transaksi.TransactionStore.ReleaseTickets | app/Http/Controllers/Api/TransaksiController.php:162-163 | the listed tickets become `tersedia`; every other ticket, the transactions and the detail rows are unchanged |
| Transaksi.TransactionStore.SetStatus | app/Http/Controllers/Api/TransaksiController.php:119-168 | invalid input is rejected before the lookup, and an unknown id is not found, both with no effect. Otherwise the status written is canonical, `sukses` exactly for the paid words and `batal` exactly for the cancel words. `sukses` stamps `paid_at` and `tanggal_transaksi` with the effective time. Any other status clears `paid_at` and keeps `tanggal_transaksi`. No other field or row changes. Tickets change only on `batal`, and then exactly the linked ones become `tersedia` |
| Schema.TableHasCol | app/Support/helpers.php:8-16 | definition of `hasColumn` over the catalogue: a column is reported if and only if introspection works and the table has it, so a failing introspection reads as false |
| Schema.PickAuthTable | app/Support/helpers.php:18-31 | the first of `users`, `customer`, `pelanggan` that exists, null when none does, and an error when introspection fails (this function has no catch) |
| Schema.FirstColIndex | app/Support/helpers.php:56-60 | the position found has the column, and no earlier candidate does |
| Schema.FirstColIndexIsFirst | app/Support/helpers.php:56-60 | a position with every earlier candidate absent and itself present (or past the end) is the first match |
| Schema.AuthPkCol | app/Support/helpers.php:54-63 | the loop with early return picks the first candidate the table has, and `id` when none; the result is always a candidate |
| Schema.AuthPkUnreachable | app/Support/helpers.php:54-62 | with introspection down every probe is false, so the key column is `id` |
| Schema.AuthPkPrefersIdUsers | app/Support/helpers.php:56-58 | a table with `id_users` uses it, whatever other candidates it has |
| PrimaryKey.SmallestMissingPk | app/Support/helpers.php:65-82 | the result is at least 1 and missing from the `(int)` casts of the numeric values, and every integer in [1, result) is present; non-numeric values are ignored |
| PrimaryKey.GapScenario | app/Support/helpers.php:67-80 | on keys 1, 2 and 4 (plus a non-numeric value) the gap search returns 3 |
| PrimaryKey.NoGapScenario | app/Support/helpers.php:92-100 | on keys 1, 2 and 3 both the gap search and max + 1 give 4 |
| PrimaryKey.Column | app/Support/helpers.php:67 | definition of `pluck($pk)`: one value per row, null where the row lacks the column |
| PrimaryKey.ColumnMax | app/Support/helpers.php:99 | `max($pk)` is no value exactly when every cell is null, non-numeric exactly when some cell is a string, and otherwise the largest numeric key |
| PrimaryKey.MaxFallbackKey | app/Support/helpers.php:100 | the third stage uses max + 1 for a numeric max, and 1 otherwise |
| PrimaryKey.MaxFallbackIsFresh | app/Support/helpers.php:99-100 | on a numeric key column, the max + 1 key collides with no existing key |
| PrimaryKey.GapAtMostMaxFallback | app/Support/helpers.php:92-100 | on a numeric key column, the gap key never exceeds the max + 1 key (or 1) |
| PrimaryKey.NativeRow | app/Support/helpers.php:88 | the row `insertGetId` stores: every column of the data with its value, plus the key column, which holds the generated key when the data had no value for it |
| PrimaryKey.Table.InsertGetId | app/Support/helpers.php:88 | the native insert returns the generated key and appends the row, or fails and appends nothing |
| PrimaryKey.Table.Insert | app/Support/helpers.php:94 | an explicit insert appends the row, or fails and appends nothing |
| PrimaryKey.Table.Pluck | app/Support/helpers.php:67 | the plucked column, or a failure |
| PrimaryKey.Table.Max | app/Support/helpers.php:99 | the column maximum, or a failure |
| PrimaryKey.Table.UpdateWhere | app/Support/helpers.php:157 | every row whose column equals the value gets the updates merged in; no other row changes, and no row is added or removed |
| PrimaryKey.TableInsertWithPk | app/Support/helpers.php:84-108 | a native success returns its key and inserts nothing else. A failure with the key column already in the data rethrows the original error and inserts nothing. Otherwise the row gets the least missing key and that key is returned; when that insert fails the original error escapes. Only when the gap search itself throws is max + 1 (or 1) used, and a failure there escapes as its own error |
| Jadwal.FindSchedule | app/Support/helpers.php:35 | the row found is in the table with the requested id, and none means no row has that id |
| Jadwal.SlotIds | app/Support/helpers.php:39-45 | an id is plucked exactly when some row in the same studio, date and start time carries it |
| Jadwal.InsertSorted | app/Support/helpers.php:43 | inserting into a sorted list keeps it sorted and adds exactly that element |
| Jadwal.SortAsc | app/Support/helpers.php:43 | `orderBy('jadwal_id')` yields an ascending permutation of the ids |
| Jadwal.MinOf | app/Support/helpers.php:49 | `min()` returns an element that is at most every element |
| Jadwal.MinOfSorted | app/Support/helpers.php:43-49 | the minimum of a sorted list is its first element |
| Jadwal.CanonicalJadwal | app/Support/helpers.php:33-52 | an unknown id gives `[null, [], null]`. Otherwise the result holds the row found and the group's ids, ascending, as a permutation of the slot's ids. The group contains the requested id. The canonical id is the smallest member, so it is at most the requested id |
| Jadwal.SlotIdsSameSlot | app/Support/helpers.php:39-42 | schedules in the same slot have the same group |
| Jadwal.SortedUnique | app/Support/helpers.php:43-49 | two ascending permutations of the same ids start with the same id |
| Jadwal.CanonicalSharedByGroup | app/Support/helpers.php:33-52 | every member of a group gets the same canonical id |
| AdminUser.FindAdmin | app/Support/helpers.php:116 | the first row whose username is `admin`, or the end when there is none |
| AdminUser.IsEmptyCell | app/Support/helpers.php:145 | definition of PHP's `empty()` on a column value: null, `""` and 0 are empty, and no other string or number is |
| AdminUser.AdminUpdates | app/Support/helpers.php:144-156 | the updates touch only `role`, `api_token` and `updated_at`. `role` is set to `admin` exactly when the column exists and the value is not `admin`. `api_token` is set to the token exactly when the column exists and the value is empty. `updated_at` is set exactly when one of those two is and the column exists |
| AdminUser.AdminUpdatesSettle | app/Support/helpers.php:144-157 | after the update with a non-empty token, running the decision again asks for nothing |
| AdminUser.EnsureAdminUser | app/Support/helpers.php:110-160 | nothing changes without both `username` and `password` columns, without an admin row, or when no update is needed. A needed update on an admin row that lacks the key column fails without writing. Otherwise exactly the rows whose key equals the admin's key get the updates merged in, and no other row changes |

## Left out

- HTTP plumbing is not modelled: routing, the JSON resources, eager loading with `with()`, `paginate` itself, the `flat` switch, `show` and `destroy`.
- The listing's `only_pending` and `customer_id` filters and its ordering are not modelled; only the status filter and the page size are.
- Of `validatePayload`, only the nullability of `status` is modelled. `store` and `update` persist many other fields, and the model follows only the status.
- Transaksi.StoreStatus: the `max:20` rule on `status` is not modelled, so `StoreStatus` and `UpdatedStatus` accept a status of any length. Validation would reject a longer one before either runs.
- Transaksi.PerPage: the `(int)` cast of the query string is not modelled. The function takes the cast value as its input.
- Transaksi.ValidStatusRequest: the `nullable|string` rule on `client_time` is not modelled; the client time is always a string or absent.
- Transaksi.EffectiveTime: Carbon's parsing and timezone conversion are opaque. They appear as a parse function and a set of valid zone names, and a conversion keeps the instant's epoch and replaces its zone.
- Transaksi.TransactionStore.SetStatus: `paid_at` and `tanggal_transaksi` are stored as an `Instant` that keeps its zone. Eloquent usually saves a Carbon value as its wall-clock time, without the zone. So when a client timezone is applied, the time read back later need not be the effective time as an instant. The model does not capture this loss.
- Transaksi.TransactionStore.SetStatus: the two writes, the row and then the tickets, are not atomic in the source. The model performs them in one method, so a failure between them is not represented. Store failures during `save()` are not modelled.
- Php.ToLower: only PHP 8.2+ ASCII `strtolower()` is modelled. Locale-dependent lower-casing of older versions is not.
- Schema.Cell: `is_numeric()` is not modelled character by character. A numeric value is carried only as its `(int)` cast, so `"2.5"`, `"02"` and `2` all become `Num(2)`. What this loses is the difference between such strings. For example, PHP's `empty("00")`, `empty("0.0")` and `empty("0.5")` are false, but each of them becomes `Num(0)` and AdminUser.IsEmptyCell calls it empty. Likewise the gap search and `MAX` see `"2.5"` as the key 2.
- PrimaryKey.ColumnMax: the model assumes a key column of numeric type, where `MAX` compares numbers. On a string-typed key column (`VARCHAR` in MySQL, `TEXT` in SQLite), `MAX` follows the collation even when every value is numeric. With keys `"9"` and `"10"` the source reads a maximum of `"9"` and assigns 10, which collides with the existing key. The model gives 11. So PrimaryKey.MaxFallbackIsFresh and PrimaryKey.GapAtMostMaxFallback hold only for numeric key columns. On a column mixing numbers and strings, the model treats any string as a non-numeric maximum, so the key falls back to 1.
- PrimaryKey.MaxFallbackKey: PHP integers are 64-bit and Dafny's `int` is unbounded. `(int) $max + 1` at `PHP_INT_MAX` becomes a float, and `(int)` caps larger numeric strings at `PHP_INT_MAX`. Neither is modelled.
- Schema.TableHasCol: the model assumes the catalogue lists table and column names exactly as the source spells them (lower case). Laravel's `hasColumn` lower-cases both names before comparing, and `hasTable` also ignores case. The source then reads row properties case-sensitively (`$admin->role`, `$admin->{$pk}`), and the model's rows do the same. So a legacy table with mixed-case names (`ID_Users`, `Role`) behaves in `auth_pk_col`, `table_insert_with_pk` and `ensure_admin_user` in ways the model cannot show. It is left out to keep one name space for the catalogue and the rows.
- Jadwal.SlotIds: the string comparisons on `tanggal` and `jam_mulai` in `where` follow the database collation (MySQL compares case-insensitively by default). The model compares exactly. The same holds for the `username` comparison in AdminUser.FindAdmin.
- PrimaryKey.TableInsertWithPk: the escaping exceptions are returned as an `InsertError` value: the original error, or the max + 1 query's or insert's own error. Their messages and types are not modelled.
- The race between the gap search or max + 1 and concurrent inserts is not modelled, because it is a concern of concurrency.
- `Str::random(40)` and `now()` are parameters of AdminUser.EnsureAdminUser. `Hash::make` feeds only the `$base` array of `ensure_admin_user`, which the source never writes; the model leaves out both.
- AdminUser.EnsureAdminUser: of the errors `ensure_admin_user` can raise, only reading a missing key property is modelled, as `PkMissing`. Store failures of the query and the update are not modelled.
