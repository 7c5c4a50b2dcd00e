# fountain-query core, modelled in Dafny

fountain-query is a live-query system: a Go backend keeps tables of rows,
aggregates over them and pushes row changes over a WebSocket; a TypeScript
client mirrors the stream into a nested object. This project models the
small, sequential parts of that system and proves what their code promises:

- `live_db.dfy` (module `LiveDb`): the client's `syncMessagesInto` handler of
  `frontend/src/live_db.tsx`. A replica is a `Node` tree (an opaque JSON
  `Leaf` or an `Object` mapping keys to nodes). A message's `Path` is split on
  `/`; the segments between the first and the last are walked from the root;
  the last segment of the reached object is set to the decoded `Data`.
  `Apply` is the effect of one message as a function; `Receiver.Handle` is
  the handler itself, walking the keys in a loop exactly as the `for … of`
  loop reassigns `current`, and is proved equal to `Apply`.
- `app.dfy` (module `App`): the copy of the handler in
  `frontend/src/App.tsx`, the `source_name_upto` counter behind
  `generate_source_name`, and `listen_on`.
- `bst.dfy` (module `Bst`): `BSTMap`, an int-keyed binary search tree with
  insert-or-update, lookup, in-order traversal and range query, proved
  against the map the tree stands for (`Contents`).
- `utils.dfy` (module `Utils`): `CappedKeyValueArray` and
  `String_or_num_to_string`; `decimal.dfy` (module `Decimal`) is the `%d`
  text of an integer and its parser.
- `tables.dfy` (module `DbTables`): a table's column lookup, index lookup
  and find-or-create, and the arity and type checks of `Insert`.
- `single_value_subs.dfy` (module `SingleValueSubs`): `Broadcaster` and the
  `Sum`, `Count`, `Avg` and `Product` aggregates, each keeping its running
  value and broadcasting it once per handler call. Go's truncating integer
  division is written out as `GoDiv`.
- `wrappers.dfy` (module `Wrappers`): `Option`, `Result` and `Outcome`; a
  Go panic or a JavaScript exception is an `Err`/`Fail` value.

The handler creates no missing containers and acts only on `"add"`. An
`add` whose container keys do not lead to an existing object throws
(`LiveDb.AddToEmptyThrows`), and every other type — `"remove"`, `"update"`
and the server's initial-load message alike — leaves the replica as it was
(`LiveDb.ApplyOtherKinds`).

## Model

| member | source | states |
|---|---|---|
| `LiveDb.Split` | frontend/src/live_db.tsx:19-20 | `split("/")` yields at least one segment and no segment contains `/` |
| `LiveDb.JoinSplit` | frontend/src/live_db.tsx:19-20 | joining the split segments with `/` gives back the path: no character is lost or added |
| `LiveDb.SplitJoin` | frontend/src/live_db.tsx:19-20 | splitting slash-free segments joined with `/` gives back exactly those segments |
| `LiveDb.PathSegments` | frontend/src/live_db.tsx:19-20 | for `/k1/…/kn/t` the container keys are `k1..kn` (the leading empty segment and the last one dropped) and the target key is `t` |
| `LiveDb.LookupAppend` | frontend/src/live_db.tsx:22-24 | walking `p + q` is walking `p` and then `q` from where it ended; an `undefined` part-way stays `undefined` |
| `LiveDb.ApplyAdd` | frontend/src/live_db.tsx:16-29 | an `"add"` succeeds exactly when the container keys lead from the root to an object; it then sets that object's target key to the data (and the walk to the target now finds the data); the root stays an object |
| `LiveDb.ApplyAddFrame` | frontend/src/live_db.tsx:22-28 | an `"add"` leaves every path that is neither a prefix nor an extension of the target path unchanged; paths below the target read inside the new data |
| `LiveDb.ApplyIdempotent` | frontend/src/live_db.tsx:28 | applying the same message to the result of applying it gives the same tree: `add` overwrites |
| `LiveDb.ApplyAddAtRoot` | frontend/src/live_db.tsx:19-28 | `"add"` at a one-segment path `/t` writes key `t` of the root itself |
| `LiveDb.ApplyOtherKinds` | frontend/src/live_db.tsx:30-39 | `"remove"`, `"update"` and any other type leave the tree unchanged and do not fail |
| `LiveDb.AddToEmptyThrows` | frontend/src/live_db.tsx:22-24 | adding `/a/b/c` to an empty replica fails: missing containers are not created |
| `LiveDb.SetAtReached` | frontend/src/live_db.tsx:28 | after the write, the reached container is the old one with only the target key replaced |
| `LiveDb.SetAtFrame` | frontend/src/live_db.tsx:22-28 | the write changes nothing outside the target path and puts the data below it |
| `LiveDb.SetAtTwice` | frontend/src/live_db.tsx:28 | writing the same value at the same place twice is writing it once |
| `LiveDb.Receiver.constructor` | frontend/src/live_db.tsx:43-48 | `live_db` starts its replica as an empty object |
| `LiveDb.Receiver.Handle` | frontend/src/live_db.tsx:9-42 | the handler's walk-and-write loop has exactly the effect of `Apply`; when it throws the tree is untouched |
| `App.SyncMessagesInto` | frontend/src/App.tsx:28-61 | the App.tsx handler ignores its source name and has the effect of `Apply` on the receiver |
| `App.SourceNamesDistinct` | frontend/src/App.tsx:63-66 | names made from different counter values differ |
| `App.SourceNameCounter.constructor` | frontend/src/App.tsx:63 | the counter starts at 0 with no name issued |
| `App.SourceNameCounter.Generate` | frontend/src/App.tsx:64-66 | returns `"source_"` followed by the counter's current value and increments the counter; the name was never issued before |
| `App.IssuedNamesDistinct` | frontend/src/App.tsx:63-66 | all names a counter has issued are pairwise distinct |
| `App.ListenOn` | frontend/src/App.tsx:67-72 | `listen_on` returns a fresh, empty replica; the counter is drawn on only when no source name is given |
| `Bst.ContentsOfNode` | bst.go:39-46 | under the search-tree order a key below a node's key is found on the left, above it on the right, and the node's own key maps to its value |
| `Bst.SizeIsKeyCount` | bst.go:21-34 | a search tree has one node per distinct key |
| `Bst.InsertNode` | bst.go:21-34 | `insertNode` keeps the search-tree order, adds the key to the key set and maps it to the new value, leaving every other key's value unchanged |
| `Bst.InsertNodeSize` | bst.go:29-32 | inserting a present key adds no node; an absent key adds exactly one |
| `Bst.GetAfterInsert` | bst.go:17-50 | after `Insert(k, v)` looking up `k` finds `v` and every other key finds what it found before |
| `Bst.BSTMap.constructor` | bst.go:11-14 | a new map has no root |
| `Bst.BSTMap.Insert` | bst.go:16-19 | the map after `Insert(k, v)` is the old map with `k` set to `v`, and the tree stays ordered |
| `Bst.BSTMap.Get` | bst.go:36-50 | the search loop returns `Some(v)` exactly when the map holds `k ↦ v`, and `None` (Go's `(zero, false)`) for an absent key |
| `Bst.InOrderAscending` | bst.go:57-64 | the calls of `f` ascend strictly by key, one per node, each with a key of the tree |
| `Bst.InOrderMembers` | bst.go:57-64 | `f(k, v)` is called exactly for the pairs the map holds |
| `Bst.BSTMap.InOrder` | bst.go:52-55 | `InOrder` calls `f` once per key, in strictly ascending order, with that key's value |
| `Bst.InRangeConcat` | bst.go:79-98 | selecting the in-range entries of a concatenation selects them piecewise |
| `Bst.InRangeNone` | bst.go:86-96 | a stretch with every key out of bounds contributes nothing, which is why `rangeNode` may skip a subtree |
| `Bst.InRangeMembers` | bst.go:89-94 | the selection holds exactly the entries with `low <= key <= high` |
| `Bst.InRangeAscending` | bst.go:79-98 | the selection of an ascending sequence ascends and holds only entries of it |
| `Bst.RangeIsInOrderFiltered` | bst.go:79-98 | the pruned walk of `rangeNode` returns exactly the in-order entries with `low <= key <= high` |
| `Bst.EmptyRange` | bst.go:79-98 | `Range(low, high)` with `low > high` returns nothing |
| `Bst.RangeMembers` | bst.go:79-98 | a pair is in the range result exactly when the map holds it and its key lies in `[low, high]` |
| `Bst.BSTMap.Range` | bst.go:66-77 | `Range` returns exactly the stored pairs with `low <= key <= high`, in strictly ascending key order |
| `Utils.StringOrNumToString` | utils/index.go:5-14 | a string comes back unchanged; an int comes back as its `%d` text (an optional `-`, then digits with no leading zero except in `"0"`), which parses back to it and starts with `-` exactly when it is negative; any other type panics |
| `Decimal.FormatNat` | utils/index.go:9-10 | the `%d` digits are decimal digits with no leading zero |
| `Decimal.ParseFormatNat` | utils/index.go:9-10 | reading the digits of `n` back gives `n` |
| `Decimal.ParseFormatInt` | utils/index.go:9-10 | reading the `%d` text of `n` back gives `n`, and the text starts with `-` exactly when `n < 0` |
| `Decimal.DecimalTextUnique` | utils/index.go:9-10 | text of the `%d` shape is exactly the `%d` text of the number it denotes, so the shape and the value together fix the text |
| `Decimal.FormatNatInjective` | frontend/src/App.tsx:65 | different numbers have different decimal texts |
| `Utils.CappedKeyValueArray.constructor` | utils/key_value_array.go:9-15 | a new array is empty and records the capacity |
| `Utils.CappedKeyValueArray.Add` | utils/key_value_array.go:17-23 | `Add` panics exactly when the array is full, changing nothing; otherwise key and value go to the same new last position and earlier entries are untouched; keys and values stay equally long and within capacity |
| `Utils.CappedKeyValueArray.Get` | utils/key_value_array.go:25-32 | `Get` returns the value at the first position holding the key, and panics exactly when the key was never added |
| `DbTables.ColIndex` | db_tables/tables.go:96-103 | the position of the first column with the name, or -1 exactly when no column has it |
| `DbTables.Table.constructor` | db_tables/tables.go:18-24 | a new table has its name and columns, no rows and no indexes |
| `DbTables.Table.GetColIndex` | db_tables/tables.go:96-103 | the scan returns the first column with the name, or -1 |
| `DbTables.Table.HasCol` | db_tables/tables.go:30-37 | true exactly when some column has the name |
| `DbTables.Table.HasIndex` | db_tables/tables.go:39-46 | true exactly when some index is on the column position `Get_col_index` gives (-1 for an unknown name) |
| `DbTables.Table.GetIndex` | db_tables/tables.go:87-94 | the first index on that column, or a panic exactly when none covers it |
| `DbTables.Table.IndexOn` | db_tables/tables.go:48-58 | returns the first existing index on the column without adding one, otherwise appends exactly one; afterwards the column has an index, so a second call adds nothing |
| `DbTables.Table.ValidateColTypes` | db_tables/tables.go:66-85 | passes exactly when every value has its column's String/Int/Bool kind; otherwise panics at the first misfit, with "unhandled" for a column of another type |
| `DbTables.Table.Insert` | db_tables/tables.go:60-64 | panics unless the row has one value per column and every value fits; only such rows are stored, appended at the position `Next_row_id()` returned before the call (the number of rows stored until then) |
| `SingleValueSubs.Broadcaster.Subscribe` | pub_sub/single_value_subs/broadcaster.go:7-10 | appends the subscriber after all earlier ones, keeps their order, returns the same broadcaster |
| `SingleValueSubs.Broadcaster.Broadcast` | pub_sub/single_value_subs/broadcaster.go:12-16 | every subscriber is called once with the value, in subscription order, and the subscriber list is unchanged |
| `SingleValueSubs.NetSumConcat` | pub_sub/single_value_subs/sum.go:44-59 | the field total, the adds and the removes of a history are additive over its stretches |
| `SingleValueSubs.AddThenRemove` | pub_sub/single_value_subs/sum.go:44-52 | an add followed by a remove of the same value restores the sum and the count |
| `SingleValueSubs.Sum.constructor` | pub_sub/single_value_subs/sum.go:19-25 | a new sum is 0 with no subscribers |
| `SingleValueSubs.Sum.OnAdd` | pub_sub/single_value_subs/sum.go:44-47 | adds the value and broadcasts the new sum once; the sum stays the total of the history |
| `SingleValueSubs.Sum.OnRemove` | pub_sub/single_value_subs/sum.go:49-52 | subtracts the value and broadcasts the new sum once |
| `SingleValueSubs.Sum.OnUpdate` | pub_sub/single_value_subs/sum.go:54-59 | sets the sum to sum − old + new and broadcasts it once |
| `SingleValueSubs.Count.constructor` | pub_sub/single_value_subs/count.go:10-15 | a new count is 0 |
| `SingleValueSubs.Count.OnAdd` | pub_sub/single_value_subs/count.go:17-20 | increments by one and broadcasts once; the count stays adds minus removes |
| `SingleValueSubs.Count.OnRemove` | pub_sub/single_value_subs/count.go:22-25 | decrements by one with no lower bound and broadcasts once |
| `SingleValueSubs.Count.OnUpdate` | pub_sub/single_value_subs/count.go:27-29 | leaves the count unchanged and broadcasts it once |
| `SingleValueSubs.CalculateAverage` | pub_sub/single_value_subs/avg.go:47-52 | the average is 0 without items, otherwise a fraction equal to sum over count |
| `SingleValueSubs.Avg.constructor` | pub_sub/single_value_subs/avg.go:21-28 | a new average has sum 0 and count 0 |
| `SingleValueSubs.Avg.OnAdd` | pub_sub/single_value_subs/avg.go:54-58 | adds the value, increments the count, broadcasts the new average once |
| `SingleValueSubs.Avg.OnRemove` | pub_sub/single_value_subs/avg.go:60-67 | panics exactly when the count is not positive, changing and broadcasting nothing; otherwise subtracts and decrements; the count never goes negative |
| `SingleValueSubs.Avg.OnUpdate` | pub_sub/single_value_subs/avg.go:69-77 | panics exactly when the count is below 1; otherwise sum becomes sum − old + new with the count unchanged |
| `SingleValueSubs.GoDiv` | pub_sub/single_value_subs/product.go:48-51 | Go's `/`: the remainder is smaller than the divisor and has the dividend's sign (truncation toward zero) |
| `SingleValueSubs.SignedRemainder` | pub_sub/single_value_subs/product.go:48-51 | with the quotient's sign taken from the operands', the remainder carries the dividend's sign |
| `SingleValueSubs.GoDivOfMultiple` | pub_sub/single_value_subs/product.go:43-51 | dividing `p * v` by a nonzero `v` gives `p`, so `On_add(v)` then `On_remove(v)` restores the product |
| `SingleValueSubs.Product.constructor` | pub_sub/single_value_subs/product.go:18-24 | a new product is 1 |
| `SingleValueSubs.Product.OnAdd` | pub_sub/single_value_subs/product.go:43-46 | multiplies by the value and broadcasts once |
| `SingleValueSubs.Product.OnRemove` | pub_sub/single_value_subs/product.go:48-57 | divides by a nonzero value with truncation, or sets 0 for a zero value; broadcasts once |
| `SingleValueSubs.Product.OnUpdate` | pub_sub/single_value_subs/product.go:59-74 | with old ≠ 0 the product becomes (product / old) · new, truncating; with old = 0 it becomes 0; either path broadcasts exactly once |
| `SingleValueSubs.Product.RecomputeProduct` | pub_sub/single_value_subs/product.go:78-83 | sets the product to 0 and broadcasts it once |

## Left out

- The WebSocket, Solid's `createMutable` reactivity, the JSX components, `console.log` and `main.go`'s routes and sample data: transport, UI and logging.
- `JSON.parse` of the frame and of `Data`: `Data` arrives already decoded as a `Node`; a malformed `Data` (a `SyntaxError`) is not modelled.
- JavaScript property lookup details: inherited prototype properties (a key such as `toString`) and properties of primitive strings (`length`, indices) are treated as absent; JSON arrays are leaves.
- `LiveDb.Receiver.Handle`: the write into the reached object is modelled by rebuilding the path in a value tree, so object aliasing (one object reachable along two paths) is not captured; decoded JSON never shares objects.
- The convergence checks of `frontend/src/integration_tests.tsx`: they depend on `fetch`, timing and a comparison helper that is not part of this model. Structural equality of two replicas is Dafny's equality of `Node` values.
- `Bst.BSTMap.Insert`: nodes are values, so the in-place pointer updates of `insertNode` are modelled by rebuilding the visited spine.
- `Bst.BSTMap.Get`: returns `None` where Go returns the zero value of the value type with `false`.
- `Bst.BSTMap.InOrder`: returns the sequence of calls `f(key, value)` instead of making them; what `f` does is not modelled.
- `apply_to_range` / `apply_to_child_nodes_in_range` in bst.go: they call `f` on possibly-nil children and on an out-of-range root, so they have no coherent contract.
- `Utils.CappedKeyValueArray.constructor`: a negative capacity, for which Go's `make` panics, is excluded by the `nat` parameter.
- `Utils.CappedKeyValueArray.Get`: returns the value rather than a pointer into the array.
- `App.SourceNameCounter.Generate`: `source_name_upto` is a JavaScript number, modelled as an unbounded `nat`. From 2^53 on, `source_name_upto++` no longer changes the value, so names would repeat; `Generate`'s "never issued before" and `App.IssuedNamesDistinct` hold only below that bound. From 1e21 on, JavaScript would also print the number in exponent form (`1e+21`), which `Decimal.FormatNat` does not produce.
- `Utils.StringOrNumToString`: Go's `int` is unbounded here; the 64-bit range is not modelled.
- `SingleValueSubs.Sum.OnAdd`: int64 wrap-around is not modelled (all aggregates use unbounded integers), so sums, counts and products never overflow here.
- `SingleValueSubs.Product.OnAdd`: int64 wrap-around is not modelled, so `GoDivOfMultiple`'s round trip holds for every product.
- `SingleValueSubs.GoDiv`: the int64 overflow of the most negative value divided by -1 is not modelled.
- `getFieldValue` (reflection, the `int64(field.Float())` truncation and its panics): each handler receives the field's integer value directly.
- `SingleValueSubs.CalculateAverage`: the float64 division is left undone; the average is broadcast as a fraction.
- `SingleValueSubs.Broadcaster.Broadcast`: subscribers are identifiers and their calls are logged; what a callback does is not modelled.
- `DbTables`: the contents of an index (`pubsub.NewIndex`), the notifications `R_Table.Add` sends, `display.DisplayStruct`, the panic message texts, and the `Tables` catalogue with its `init` (db_tables/tables.go:105-125); `R_Table.Add` is modelled as appending the row.
- `eventEmitterTree.go`, `pub_sub_primitives.go`, `mapper.go`, `collection.go`, `pub_sub/printer.go` and `compiler/parser/parser_test.go`: plumbing through callbacks and code that is not part of this model.
