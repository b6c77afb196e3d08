# Nike catalog crawler: a Dafny model

This project models the data path of `extract_nike_data.py`. That script:

- visits nine category landing pages of the Nike India storefront;
- reads each category's identifier (`conceptid`) from the page's deep-link meta tag;
- pages through the catalog API for that category;
- flattens each API page into a frame of eight product columns;
- collects the frames of all categories;
- writes the aggregate to two SQLite tables in one transaction:
  - `products`, upserted by product code;
  - `price_history`, which only grows.

Network, HTML parsing and threads are replaced by plain inputs:

- a landing page is a `Discovery.Landing`: unreachable, or the deep link its meta tag carries;
- the catalog API is a `Fetcher.Server`, a map from request URL to the JSON page it answers;
- the worker tasks are a sequence of `Crawler.Outcome`s in completion order.

Modules, one per part of the script:

- `Text`: `str.split`, `str.join` and `str.lstrip` on `seq<char>`.
- `Urls`:
  - the category name (`process_single_url`);
  - `extract_path_from_url` (`urlparse(url).path` without leading slashes);
  - `construct_api_url`;
  - a `parse_qs`-style query reader.
- `Headers`: `get_headers`.
- `Discovery`: `extract_concept_ids`.
- `Catalog`:
  - the JSON shapes, where a member is `Absent`, `Null` or `Val`;
  - `parse_response`;
  - `pd.concat`;
  - the `category` column.
- `Fetcher`: `fetch_nike_products`. It has two parts:
  - a reference walk (`Visit`/`After`) over the server map;
  - the imperative `while next_page` loop, proved equal to that walk.
- `Store`:
  - `init_db`'s empty tables, as a `Database` class;
  - `update_database`, as a method that changes those tables. Its statements can fail at an injected position, and a failure rolls everything back.
- `Crawler`:
  - `process_single_url`;
  - the `as_completed` collection loop;
  - the final write.

Modelling decisions:

- **Cells.** A JSON member that is missing and one that is `null` both become an empty cell (`None`). Pandas turns both into NaN/None, and SQLite stores them as NULL.
- **Upsert.** `INSERT OR REPLACE` replaces the whole product row. Because the insert lists no `created_at`, a replaced row gets the default again (`createdAt`).
- **NULL product codes.** The key column is a `TEXT PRIMARY KEY`, which in SQLite admits NULL, and NULL keys never conflict. So a record without a product code adds a row to `Database.unkeyed` instead of replacing anything.
- **Foreign key.** SQLite does not enforce the `price_history` foreign key. `Database.Valid` states it as an invariant, and `UpdateDatabase` preserves it.
- **Missing columns.** A column missing from only some of the selected products gives those products empty cells. A column missing from all of them makes the column selection in `parse_response` raise, and the page yields no frame.
- **Termination.** A walk over the catalog API ends only when the server stops handing out cursors. The ghost `fuel` parameter bounds the number of follow-up requests. `FetchProducts` requires a walk that ends within that bound.

## Model

| member | source | states |
|---|---|---|
| Text.Split | extract_nike_data.py:327 | `str.split(sep)`: at least one part, and no part contains the separator |
| Text.SplitJoin | extract_nike_data.py:327 | joining the parts of a split with the same separator gives back the string |
| Text.JoinSplit | extract_nike_data.py:327 | splitting a join of separator-free parts gives back the parts |
| Text.LStrip | extract_nike_data.py:320 | `lstrip(c)` removes exactly the leading run of `c`: the result is a suffix, everything removed is `c`, and the result does not start with `c` |
| Text.Join | extract_nike_data.py:327 | `sep.join(parts)` starts with the first part, and a single part is joined to itself |
| Urls.LastSegment | extract_nike_data.py:327 | `url.split("/")[-1]` contains no '/' |
| Urls.CategoryName | extract_nike_data.py:327 | the category name holds no hyphen: the hyphens between words became spaces and the last token is gone |
| Urls.CategoryFromSlug | extract_nike_data.py:327 | a URL ending in `/w1-...-wn-id` (hyphen-free words) is named by its words joined with spaces: every token but the last |
| Urls.MensShoesCategory | extract_nike_data.py:27 | the first configured URL is named "mens shoes" |
| Urls.MensAccessoriesCategory | extract_nike_data.py:29 | the third configured URL is named "mens accessories equipment" |
| Urls.UrlPath | extract_nike_data.py:319 | `urlparse(url).path` holds no '?' or '#': the query and fragment are cut off |
| Urls.ExtractPath | extract_nike_data.py:317-320 | the extracted path has no leading '/' and no query or fragment |
| Urls.ExtractPathOfPage | extract_nike_data.py:317-320 | for `https://host/path` the extracted path is `path` itself |
| Urls.ExtractPathOfCategory | extract_nike_data.py:317-320 | for `https://host/dir/slug` the extracted path is `dir/slug` |
| Urls.MensShoesPath | extract_nike_data.py:27 | the path of the first configured URL is `in/w/mens-shoes-nik1zy7ok` |
| Urls.QueryOf | extract_nike_data.py:192 | `urlparse(url).query` holds no fragment mark |
| Urls.QueryAfterMark | extract_nike_data.py:192 | the query of `base?q` is `q` when `base` has no '?' or '#' and `q` no '#' |
| Urls.ParsePairs | extract_nike_data.py:192 | the query reader keeps only fields with a non-empty value, at most one pair per field |
| Urls.FindKey | extract_nike_data.py:194-199 | the position of the first pair with the key; no earlier pair has it |
| Urls.Lookup | extract_nike_data.py:194-199 | `None` if and only if no pair has the key; otherwise the value of the first pair with the key |
| Urls.ParseField | extract_nike_data.py:192 | a field `key=value` with no '=' in the key reads as the pair `(key, value)` |
| Urls.ConstructApiUrl | extract_nike_data.py:298-314 | the API URL starts with the fixed endpoint: base, marketplace `IN`, language `en-GB`, the consumer channel id |
| Urls.ApiUrlQuery | extract_nike_data.py:301-314 | reading the built URL's query back gives `path`, `attributeIds`, `queryType=PRODUCTS`, `anchor=0`, `count=100`, in that order |
| Urls.ApiUrlCarriesConceptIds | extract_nike_data.py:310-311 | the built URL carries the concept ids under `attributeIds` and the path under `path` |
| Headers.GetHeaders | extract_nike_data.py:154-170 | `"html"` gives the three browser headers, with the browser `accept` value; any other type gives the six API headers (`*/*`, caller id, the storefront origin and referer); both share user agent and language |
| Headers.SameIdentity | extract_nike_data.py:154-170 | both profiles present the same user agent and language, and the API profile's keys strictly include the browser profile's |
| Discovery.ExtractConceptIds | extract_nike_data.py:177-204 | `None` when the page raised, or the tag or its content is missing or empty; a returned identifier is never empty |
| Discovery.ConceptIdIsFirst | extract_nike_data.py:191-199 | a non-empty deep link yields `v` if and only if its first `conceptid` pair has the value `v` |
| Discovery.NoConceptId | extract_nike_data.py:194-197 | a deep link without a `conceptid` pair yields `None` |
| Discovery.ConceptIdLeading | extract_nike_data.py:191-199 | the deep link `base?conceptid=v&...` yields `v` |
| Catalog.Selected | extract_nike_data.py:211-215 | at most one product per grouping |
| Catalog.HasAllColumns | extract_nike_data.py:216-227 | selecting the eight columns succeeds only when each of them exists in some selected product; otherwise the selection raises `KeyError` |
| Catalog.FirstOf | extract_nike_data.py:212-214 | a grouping contributes at most one product |
| Catalog.Cell | extract_nike_data.py:210 | a cell is filled exactly when the member is present with a value, and then holds that value |
| Catalog.HasProducts | extract_nike_data.py:214 | `if i.get("products")`: the member is present, not `null`, and a non-empty list |
| Catalog.Project | extract_nike_data.py:210-227 | a row's cell is filled if and only if the product has a value in that column; the product code and the current price are carried over |
| Catalog.ParseResponse | extract_nike_data.py:207-238 | a frame exists if and only if `productGroupings` is present and every column exists among the selected products; the frame is non-empty, has one row per selected product, in order, and each row is that product's projection |
| Catalog.Parsed | extract_nike_data.py:234-238 | the returned list holds at most one frame, and never an empty one |
| Catalog.SelectedAppend | extract_nike_data.py:211-215 | selection keeps grouping order: selecting from `a + b` gives the selection from `a` followed by the selection from `b` |
| Catalog.SelectedMembers | extract_nike_data.py:211-215 | a product is selected if and only if it is the first variant of a grouping with a non-empty product list |
| Catalog.DropsEmptyGroupings | extract_nike_data.py:214 | a grouping with missing or empty `products` contributes nothing |
| Catalog.NothingSelected | extract_nike_data.py:213-238 | no `productGroupings`, or nothing selected, gives no frame |
| Catalog.OneOfTwoGroupings | extract_nike_data.py:207-234 | one empty grouping and one with a complete product give exactly that product's row; further variants are ignored |
| Catalog.MissingBadgeDropsPage | extract_nike_data.py:209-238 | a page whose only selected product lacks `badgeLabel` parses to nothing: the whole page is dropped although its other columns are there |
| Catalog.ConcatAppend | extract_nike_data.py:287 | `pd.concat` distributes over appended frame lists |
| Catalog.Concat | extract_nike_data.py:287 | concatenating no frames gives no rows |
| Catalog.ConcatMember | extract_nike_data.py:287 | every row of a concatenation comes from one of the frames |
| Catalog.ConcatEmpty | extract_nike_data.py:287 | the concatenation is empty if and only if every frame is |
| Catalog.ConcatPermutation | extract_nike_data.py:371 | frames that are a permutation of each other concatenate to rows that are a permutation of each other |
| Catalog.Tag | extract_nike_data.py:288 | the category column keeps every row, in order, and sets the category on each |
| Fetcher.NextUrl | extract_nike_data.py:272 | the next request URL starts with the API host, and what follows the host is exactly the cursor |
| Fetcher.Truthy | extract_nike_data.py:269-282 | the truthiness of `next_page`: present, not `null`, and not the empty string |
| Fetcher.Prepend | extract_nike_data.py:277-278 | a finished walk gains the page in front; a failed walk stays failed |
| Fetcher.PrependAll | extract_nike_data.py:259-278 | earlier pages are prepended to a finished walk; a raised or unfinished walk stays so |
| Fetcher.Visit | extract_nike_data.py:247-284 | a finished walk started at a URL the server answers, its first page is that answer, and it holds at most one page more than the bound |
| Fetcher.After | extract_nike_data.py:269-275 | following a cursor that finishes requests at least one page and no more than the bound |
| Fetcher.Frames | extract_nike_data.py:258-278 | at most one frame per page, and no empty frame (`all_products.extend`) |
| Fetcher.Fetched | extract_nike_data.py:241-295 | rows are returned only when the walk finished, and every row carries the category |
| Fetcher.FetchProducts | extract_nike_data.py:241-295 | the loop returns exactly the rows of the reference walk: the tagged rows of its pages, or nothing when a request raised |
| Fetcher.ChainTail | extract_nike_data.py:269-280 | the tail of a cursor chain is the chain from the next cursor |
| Fetcher.FinishedFollowsChain | extract_nike_data.py:250-284 | a finished walk followed the cursor chain: each page's truthy `next` led to the following page, the last page has none, and the first page declared `totalResources` |
| Fetcher.ChainFinishes | extract_nike_data.py:250-284 | conversely, a cursor chain whose first page declares `totalResources` is walked to its end |
| Fetcher.FuelSuffices | extract_nike_data.py:269 | a walk that ends within a bound gives the same result under any larger bound |
| Fetcher.RepeatedCursorNeverEnds | extract_nike_data.py:269-282 | a cursor whose page hands out the same cursor again is followed until any bound runs out |
| Fetcher.SelfLinkedFirstPage | extract_nike_data.py:247-284 | a first page whose cursor leads back to itself never finishes under any bound |
| Fetcher.FailureDiscardsAll | extract_nike_data.py:269-295 | a follow-up request that fails, or answers a page without `pages`, after any number of linked pages makes the whole walk raise |
| Fetcher.FramesAppend | extract_nike_data.py:259-278 | the frames of two page runs are the first run's frames followed by the second's |
| Fetcher.UnparsedPageAddsNothing | extract_nike_data.py:277-280 | a page that parses to nothing adds no rows; the walk still moves past it |
| Fetcher.NothingParsedNothingFetched | extract_nike_data.py:286-295 | a finished walk whose every page parses to nothing returns an empty frame |
| Fetcher.FetchedInRequestOrder | extract_nike_data.py:258-289 | the fetched rows are the first page's rows followed by the other pages' rows, in request order, all tagged with the category |
| Fetcher.TwoPagesDespiteTotal | extract_nike_data.py:250-284 | a first page declaring 250 products and a second page without a cursor end the walk after two pages: `totalResources` does not bound the loop |
| Store.Database.constructor | extract_nike_data.py:39-73 | the tables start empty and satisfy the foreign key |
| Store.Database.UpdateDatabase | extract_nike_data.py:77-151 | commits if and only if the snapshot is non-empty and no statement up to the commit raised; a commit upserts every record, adds the NULL-code rows and appends one price row per record; otherwise both tables are unchanged; the foreign key is preserved |
| Store.Database.InsertProducts | extract_nike_data.py:106-125 | raises exactly when a product statement fails; otherwise upserts every record; history untouched |
| Store.Database.InsertPrices | extract_nike_data.py:128-135 | raises exactly when a price statement fails; otherwise appends the price rows; products untouched |
| Store.Upsert | extract_nike_data.py:111-125 | `INSERT OR REPLACE` of one record: a coded record sets its code's row and adds that key only; every other key keeps its row; a record without a code leaves the keyed rows as they were |
| Store.ProductOf | extract_nike_data.py:89-124 | the product row an `INSERT OR REPLACE` writes for a record: `title` from `copy.title`, `subtitle` from `copy.subTitle`, `category`, `image_url` from `colorwayImages.portraitURL`, `url` from `pdpUrl.url`, and the run's `created_at` default; `productCode` is the key |
| Store.PriceOf | extract_nike_data.py:128-135 | the price row for a record: its `productCode`, its `prices.currentPrice` and the run's timestamp |
| Store.Upserted | extract_nike_data.py:106-125 | upserting the snapshot never removes a key |
| Store.Unkeyed | extract_nike_data.py:106-125 | every NULL-code row carries the run's `created_at` |
| Store.PriceRows | extract_nike_data.py:128-135 | one price row per record, each with the run's timestamp |
| Store.ValidAfterRun | extract_nike_data.py:106-135 | after a committed run every price row's code names a product row |
| Store.UpsertedKeys | extract_nike_data.py:106-125 | the product keys after a run are the old keys together with the snapshot's codes; nothing is removed |
| Store.UpsertedUntouched | extract_nike_data.py:106-125 | a product whose code is not in the snapshot keeps its row |
| Store.UpsertedLastWins | extract_nike_data.py:111-125 | a code maps to the row of its last occurrence in the snapshot |
| Store.UpsertedOverrides | extract_nike_data.py:111-125 | on the snapshot's codes the result does not depend on the earlier table |
| Store.LastOccurrence | extract_nike_data.py:106-125 | a code of the snapshot has a last position |
| Store.UpsertedIdempotent | extract_nike_data.py:106-125 | writing the same snapshot twice, with any two `created_at` values, gives the same products as writing it once with the second value |
| Store.PriceRowsAt | extract_nike_data.py:128-135 | one price row per record, in snapshot order, with the record's code and price and the run's single timestamp |
| Store.UnkeyedOnlyNullCodes | extract_nike_data.py:111-125 | a row is among the NULL-code rows if and only if it is the row of a snapshot record without a code; at most one per record, and none when every record has a code |
| Store.UnkeyedAt | extract_nike_data.py:106-125 | each record without a code adds exactly its own row at its place in snapshot order; a record with a code adds none |
| Store.UnkeyedAppend | extract_nike_data.py:106-125 | the NULL-code rows of two snapshot parts are those of the first part followed by those of the second |
| Store.UpsertedAppend | extract_nike_data.py:106-125 | upserting a concatenation upserts its parts one after the other |
| Store.UpsertedCommutes | extract_nike_data.py:106-125 | frames with no code in common give the same products in either completion order |
| Store.TwoProductsIntoEmptyTables | extract_nike_data.py:106-135 | two records with distinct codes give two product keys and two price rows with the same timestamp |
| Crawler.CategoryUrls | extract_nike_data.py:26-36 | nine category URLs, each under the storefront's wall directory |
| Crawler.ConfiguredCategoryNames | extract_nike_data.py:27-29 | the first configured category is "mens shoes" with path `in/w/mens-shoes-nik1zy7ok`; the third is "mens accessories equipment" |
| Crawler.SingleUrlRows | extract_nike_data.py:323-341 | no rows without an identifier, and every row carries the category name of the URL |
| Crawler.ProcessSingleUrl | extract_nike_data.py:323-341 | returns nothing without an identifier, otherwise the fetched rows of the API URL built from the identifier and the path; every row carries the category name |
| Crawler.CategoryTagged | extract_nike_data.py:327-341 | every row of a category carries that category's name |
| Crawler.Collect | extract_nike_data.py:357-367 | the collection loop keeps exactly the non-empty returned frames, in completion order |
| Crawler.Kept | extract_nike_data.py:357-364 | at most one frame per task, no empty frame, and every kept frame is one that some task returned |
| Crawler.Snapshot | extract_nike_data.py:370-371 | every row of `final_df` belongs to the frame some task returned |
| Crawler.Run | extract_nike_data.py:370-378 | writes if and only if the snapshot is non-empty and the transaction commits; the tables then hold the snapshot's upserts and price rows, otherwise they are unchanged; the foreign key is preserved |
| Crawler.KeptAppend | extract_nike_data.py:357-364 | the kept frames of two outcome runs are those of the first followed by those of the second |
| Crawler.KeptFrames | extract_nike_data.py:360-362 | a frame is kept if and only if it is non-empty and some task returned it |
| Crawler.FailureIsolated | extract_nike_data.py:357-364 | a task that raised or returned an empty frame leaves the snapshot to the other tasks |
| Crawler.SnapshotEmpty | extract_nike_data.py:370-378 | the snapshot is empty, so nothing is written, if and only if no task returned a non-empty frame |
| Crawler.KeptPermutation | extract_nike_data.py:357 | permuting the completion order permutes the kept frames |
| Crawler.SnapshotPermutation | extract_nike_data.py:357-371 | whatever the completion order, the snapshot holds the same rows |
| Crawler.OtherTaskOnly | extract_nike_data.py:357-371 | next to a task that contributes nothing, the snapshot is the other task's frame, in either order |
| Crawler.SecondCategorySkipped | extract_nike_data.py:357-371 | with two categories, one of them without an identifier, the snapshot is the other category's rows, in either completion order |
| Crawler.SingleFrame | extract_nike_data.py:360-371 | one returned task gives its own frame as the snapshot |

## Left out

- Network access, `curl_cffi` sessions and BeautifulSoup: the landing page and the API answers are inputs (`Landing`, `Server`). A transport error is the URL missing from the server map, or `Unreachable`.
- Request headers are modelled (`GetHeaders`), but nothing in the model depends on them, because the server map ignores them.
- `urlparse` and `parse_qs` are modelled for the URL shapes the crawler handles:
  - no percent-decoding;
  - no `+` to space;
  - no `;` params;
  - `Lookup` returns the first value of a key, which is what `parse_qs(...)[key][0]` gives.
- `ThreadPoolExecutor`, `as_completed` and the lock: the worker outcomes arrive as a sequence in completion order. Any order is possible, and the permutation lemmas cover that.
- tqdm progress bars, `print`, logging, and `time.sleep` pacing: they have no effect on the data. `totalResources` only feeds the progress total, so the model reads it and checks that it is present, but does not compute `ceil`.
- The commented-out price jitter in `parse_response` is inactive.
- Prices are `REAL` in the database and floats or ints in JSON. They are modelled as `int`, and no arithmetic is done on them.
- `datetime.now()`: the run timestamp is a parameter.
- `created_at`: the `CURRENT_TIMESTAMP` default is one `createdAt` value per run, not one per statement.
- The `price_history.id` autoincrement column is not modelled. Price rows are a sequence in insertion order.
- `init_db`'s `CREATE TABLE IF NOT EXISTS` on an existing database, opening and closing connections, and a failed `sqlite3.connect` (which happens before the `try`): only the empty tables of a fresh database are modelled (`Database` constructor).
- Statement failures are an injected position (`failAt`). Only the first failure matters, because the transaction stops there.
- Fetcher.FetchProducts: requires the walk to end within the ghost bound `fuel`. A server that hands out cursors forever is not modelled by the loop. On such a server the source loops without end, so the executor never finishes and the database is never written. `Fetcher.RepeatedCursorNeverEnds` and `Fetcher.SelfLinkedFirstPage` show that a cursor leading back to its own page is such a server.
- `json_normalize` flattening: a nested object that is itself `null` or missing is modelled as missing dotted members. Deeper nesting beyond the eight columns is not modelled.
- `price_tracker.py`, the dashboard, is not part of this model.
