# Sequence counters and product attribute values — a Dafny model

This project models the statable logic inside two repository modules of an
ERP backend built on an object-relational mapper:

- the **sequence allocator** `GetNextSequece`, which finds the active,
  default counter row for a table name, increments its `Current`, and returns
  `Prefix` followed by the new value zero-padded to `Padding` digits. It
  builds a Go format string `Prefix + "%0" + Itoa(Padding) + "s"` and calls
  `fmt.Sprintf` with `strconv.Itoa(Current)`;
- the **list operations** `GetAllSequence` and `GetAllProductAttributeValue`.
  Each defaults a zero limit to 20 and rewrites dot-notation filter keys into
  the mapper's `__` join syntax. Each also turns `sortby`/`order` into
  order-by fields, or into one of three validation errors;
- the **create** `AddProductAttributeValue`. It stamps the acting user and
  begins a transaction. It then resolves the attribute from `AttributeID`,
  inserts, and rolls back or commits, collecting every error;
- the **read-before-write update and delete** of both entities.

The mapper is abstracted away. A table is a `map<int, Row>` from primary key
to row. What the mapper would return is an input of the model: the lookup
the allocator's query makes, and the outcome of each read, attribute lookup,
begin, insert, rollback, commit, update or delete statement.

Modules: `Wrappers` (Option/Result), `Decimal` (`Itoa`, digit-string value,
padding), `GoFormat` (the fragment of `fmt.Sprintf` the allocator uses),
`Store` (tables, point read, update/delete by key), `Transaction` (the create
pattern), `SortOrder`, `ListQuery`, `BaseSequence`, `ProductAttributeValues`.

Some behaviours of the code are easy to miss, and the model keeps them:

- `GetAllSequence` accepts an `exclude` map but never reads it
  (models/base_sequence.go:106-126). Only the attribute-value list applies
  its exclusions (models/product_attribute_value.go:113-118); see Findings.
  Neither list reads `condMap`.
- `GetNextSequece` increments `Current` before formatting it
  (models/base_sequence.go:55-56), so the value returned is the value the
  update stores.
- A failed attribute lookup in the create sets `Attribute` to nil: the error
  of `GetProductAttributeByID` is discarded and the insert still runs
  (models/product_attribute_value.go:47-50).
- `AttributeID` is a form field with no column
  (models/product_attribute_value.go:29), so an update does not store it.

## Model

| member | source | states |
|---|---|---|
| Decimal.Itoa | models/base_sequence.go:52 | `strconv.Itoa` of a non-negative number is a non-empty digit string with no leading zero, one digit long exactly below 10 |
| Decimal.ValueOfItoa | models/base_sequence.go:56 | the digit string `Itoa(n)` spells `n` back |
| Decimal.ItoaOfValue | models/base_sequence.go:56 | on canonical digit strings `Itoa` inverts `Value`, so the two are a bijection between naturals and canonical spellings |
| Decimal.ValueIgnoresLeadingZeros | models/base_sequence.go:49-56 | zeros put in front of a digit string do not change the number it spells |
| GoFormat.SprintfCopiesLiteralPrefix | models/base_sequence.go:49-56 | literal text without '%' before the verb is copied unchanged to the front of `Sprintf`'s output |
| GoFormat.ZeroPadVerb | models/base_sequence.go:51-56 | the verb `%0<w>s`, `<w>` spelled by `Itoa`, left-pads its argument with '0' to at least `w` characters, `w` = 0 (`%00s`) included |
| BaseSequence.FormatSequenceIsSprintf | models/base_sequence.go:49-56 | for a prefix without '%', `Sprintf` on the assembled format string and the decimal counter yields exactly the prefix followed by the zero-padded number |
| BaseSequence.SequenceFormatSprintf | models/base_sequence.go:49-56 | for a prefix without '%', `Sprintf` on `Prefix + "%0" + Itoa(Padding) + "s"` prints the prefix and then its argument left-padded with '0' to `Padding` characters |
| BaseSequence.PaddedValue | models/base_sequence.go:52-56 | the zero-padded counter text is all digits and still spells the counter value |
| BaseSequence.FormatSequence | models/base_sequence.go:49-56 | the value is as long as the prefix plus the larger of the digit count and the padding, and begins with the prefix |
| BaseSequence.FormatSequenceSuffix | models/base_sequence.go:49-56 | after the prefix come digits that spell the counter value, never truncated: the full `Itoa` spelling preceded only by '0's, `Padding` long when the number is shorter |
| BaseSequence.ParseFormatted | models/base_sequence.go:49-56 | reading the number back after the prefix returns the counter value formatted |
| BaseSequence.FormatInjective | models/base_sequence.go:55-56 | distinct counter values give distinct sequence values |
| BaseSequence.GetNextSequence | models/base_sequence.go:38-64 | a failed lookup returns "" with exactly its error and changes no row; otherwise the formatted new value is returned, and with a successful update only that row changes, to `Current` + 1, while a failed update returns the value with exactly one error and the table unchanged; rows stay stored under their own keys |
| BaseSequence.ReturnedMatchesStored | models/base_sequence.go:55-59 | the returned value spells old `Current` + 1, which is also what is stored when the update succeeds |
| BaseSequence.AllocateMany | models/base_sequence.go:55-57 | `k` successful allocations hand out `k` values and leave `Current` exactly `k` higher |
| BaseSequence.AllocateManyValues | models/base_sequence.go:55-57 | the `i`-th of `k` consecutive allocations hands out starting `Current` + `i` + 1: no gap, no repeat |
| BaseSequence.AllocationsIncrease | models/base_sequence.go:55-57 | consecutive allocations read back as strictly increasing numbers and are pairwise distinct |
| BaseSequence.AllocateManyIsRepeatedCalls | models/base_sequence.go:38-64 | one `GetNextSequence` call on the table hands out the first of the row's consecutive values and leaves the row from which the rest follow |
| BaseSequence.UpdateSequenceByID | models/base_sequence.go:178-189 | a failed read returns its error and changes nothing; an absent key errors with the no-rows error and changes nothing; a failed update statement returns its error with the table unchanged; a successful update overwrites only that row; rows stay stored under their own keys |
| BaseSequence.DeleteSequence | models/base_sequence.go:204-215 | a failed read returns its error and changes nothing; an absent key errors with the no-rows error and changes nothing; a failed delete statement returns its error with the table unchanged; the table changes exactly when no error is reported, and then only that key is removed |
| Store.Read | models/base_sequence.go:180-182 | the point read succeeds exactly when the read statement does not fail and the key is present, returning its row; a driver failure is returned as it is, and an absent key gives the no-rows error |
| Store.UpdateByID | models/product_attribute_value.go:170-181 | read-before-write update: a failed read returns its error and skips the update; an absent key gives the no-rows error and no change; a statement error gives that error and no change; otherwise that key alone is overwritten |
| Store.DeleteByID | models/product_attribute_value.go:185-196 | read-before-write delete: a failed read returns its error and skips the delete; an absent key gives the no-rows error and no change; a statement error gives that error and no change; otherwise that key alone is removed |
| Store.DeleteFailsIffUnchanged | models/base_sequence.go:204-215 | a delete reports an error if and only if it leaves the table unchanged |
| Store.ReadAfterUpdate | models/base_sequence.go:178-189 | after a successful update the key reads back the new row and every other key reads as before |
| Store.DeleteTwice | models/base_sequence.go:204-215 | after a successful delete the key reads as absent, and a second delete whose read succeeds fails with the no-rows error and no change |
| Transaction.StepsIssued | models/product_attribute_value.go:43-63 | begin and insert are always issued, a failed begin does not stop the insert, and exactly one of rollback (insert failed) or commit (insert succeeded) follows |
| Transaction.InsertInTransaction | models/product_attribute_value.go:43-63 | the returned key is the insert's, a begin error comes first, an insert error is always reported, and at most three errors are collected |
| Transaction.ErrorsAreFailedSteps | models/product_attribute_value.go:43-63 | the collected errors are exactly the errors of the failed issued steps, in issue order |
| Transaction.CleanCreate | models/product_attribute_value.go:43-63 | no error is reported exactly when begin, insert and commit all succeed |
| SortOrder.DirectEach | models/base_sequence.go:130-143 | with one order per field, the clause succeeds iff every order is "asc" or "desc", field `i` then being `sortby[i]` or `"-" + sortby[i]`; otherwise the invalid-order error |
| SortOrder.DirectAll | models/base_sequence.go:144-156 | with one order for several fields, every field takes that direction, or the invalid-order error if it is neither "asc" nor "desc" |
| SortOrder.BuildSortFields | models/base_sequence.go:128-164 | the full case split: both empty gives no fields; unused orders, size mismatch and invalid order give their fixed error texts; equal sizes pair field and order; one order applies to all fields |
| SortOrder.SortFieldsShape | models/product_attribute_value.go:120-156 | a successful clause has one entry per field, each either the field or the field with '-' in front |
| SortOrder.SingleOrderIsRepeated | models/base_sequence.go:144-156 | a single order behaves exactly as that order repeated once per field |
| SortOrder.DirectionsRecoverable | models/base_sequence.go:130-143 | when no field name starts with '-', an entry carries '-' exactly when its order was "desc" |
| ListQuery.DefaultLimit | models/product_attribute_value.go:101-103 | a zero limit becomes 20, any other limit passes through, and the result is never zero |
| ListQuery.RewriteKey | models/product_attribute_value.go:108-118 | a one-character key `.` becomes "__" and any other one-character key stays; the result holds no '.' and is longer by one character per '.' |
| ListQuery.RewriteDottedPath | models/product_attribute_value.go:108-118 | a dotted path `a.b` is rewritten to the rewritten `a`, then "__", then the rewritten `b` |
| ListQuery.RewriteKeepsDotFree | models/product_attribute_value.go:108-118 | a key without '.' is unchanged |
| ListQuery.RewriteIdempotent | models/product_attribute_value.go:108-118 | rewriting twice equals rewriting once |
| ListQuery.RewriteConcat | models/product_attribute_value.go:108-118 | the rewrite distributes over concatenation, so each path segment is rewritten on its own |
| ListQuery.RewriteConds | models/product_attribute_value.go:107-118 | every map entry becomes one condition with its key rewritten, no other condition appears, and no condition key holds '.' |
| ListQuery.BuildQuery | models/base_sequence.go:114-166 | the query fails exactly when the sort clause does, with one of the three validation texts; a built query has a non-zero page size that is the caller's when non-zero, and one order-by entry per sort field, each the field or the field with '-' in front |
| ListQuery.SequenceListQuery | models/base_sequence.go:106-166 | the sequence list filters by the rewritten `query` keys, applies no exclusion, and sorts and pages as above |
| ListQuery.SequenceListIgnoresExclude | models/base_sequence.go:106-126 | the sequence list's query is the same whatever `exclude` and `condMap` are |
| ListQuery.SequenceListDropsExclusion | models/base_sequence.go:121-126 | a concrete exclusion, `Active` = false, is dropped from the sequence list's query |
| ListQuery.SequenceListQueryWithExclude | models/product_attribute_value.go:113-118 | the corrected sequence list also rewrites every `exclude` key and applies it as an exclusion |
| ListQuery.CorrectedListsAgree | models/product_attribute_value.go:93-158 | the corrected sequence list builds the same query as the attribute-value list |
| ListQuery.AttributeValueListQuery | models/product_attribute_value.go:93-158 | the attribute-value list filters by the rewritten `query` keys, excludes by the rewritten `exclude` keys, and sorts and pages as above |
| ProductAttributeValues.LookupAttribute | models/product_attribute_value.go:48 | the attribute lookup finds the attribute exactly when its read succeeds on a present key, and yields nil for an absent key or a failed read |
| ProductAttributeValues.Stamped | models/product_attribute_value.go:40-49 | both audit users become the acting user; a non-zero `AttributeID` replaces the attribute with the lookup result, a zero one leaves it alone; nothing else changes |
| ProductAttributeValues.AddProductAttributeValue | models/product_attribute_value.go:38-64 | the inserted row is stamped and resolved as above, a missing attribute or a failed lookup becomes nil, the key is the insert's, and the errors are those of the failed issued steps, at most three |
| ProductAttributeValues.UpdateProductAttributeValueByID | models/product_attribute_value.go:170-181 | a failed read or an absent key errors and changes nothing; a failed update statement returns its error with the table unchanged; a successful update overwrites only that row, with `m`'s stored fields and `AttributeID` at 0, since that field has no column; a table without stored form fields keeps none |
| ProductAttributeValues.DeleteProductAttributeValue | models/product_attribute_value.go:185-196 | a failed read or an absent key errors and changes nothing; a failed delete statement returns its error with the table unchanged; the table changes exactly when no error is reported, and then only that key is removed |

## Left out

- The mapper itself (`QueryTable`, `Filter`, `Exclude`, `OrderBy`, `Count`, `All`, `One`, `Read`, `Insert`, `Update`, `Delete`) is a foreign library. Its outcomes are inputs of the model. The query a list operation issues is modelled; the rows it returns are not.
- `utils.GenPaginator` and the paginator returned by the list operations are left out. Their source is not part of this model, and neither is the row count.
- Transactions and drivers are left out. Only the success or failure of each step is kept. What ends up in the table after a create depends on the driver's transaction semantics, so the create's effect on the table is not modelled.
- The read-increment-write race in `GetNextSequece` is not modelled. It is a concurrency issue, and the model is sequential.
- How the allocator's query picks its row is not modelled. The row is an input, and the model requires it to be present and to be an active, default counter for the table name. Whether zero or several matches are an error is the mapper's business.
- BaseSequence.GetNextSequence: requires `0 <= Current < 2^63 - 1`, `0 <= Padding <= 10^6` and a prefix without '%'. Outside those bounds the source's behaviour is not modelled: `Current++` overflowing `int64`, a negative `Itoa` result, a negative width read as the '-' flag, Go's overflow guard on very large widths, and '%' in the prefix starting a verb.
- GoFormat.Sprintf: covers only formats of literal text plus one `%s` verb with optional zero flags and width. Other formats yield `None`, and the model says nothing about what Go prints for them. The `0` flag is taken to pad a string operand with '0' characters, which is what the allocator relies on.
- `AddSequence`, `GetSequenceByID`, `GetSequenceByName`, `GetProductAttributeValueByID` and `GetProductAttributeValueByName` are left out. They are outside the modelled core. Their point reads follow the same pattern as `Store.Read`, and `AddSequence` follows the same create pattern as `Transaction.InsertInTransaction`.
- `PriceExtra` (a float), the audit timestamps, the many-to-many `Products` relation, JSON tags and the `fmt.Println` logging of affected row counts are left out.
- The `fields` projection and the `offset` are passed through into the modelled query unchanged. What the mapper does with them is not modelled.

## Findings

| source | as written | input that shows it | evidently intended | confidence | as-written member | corrected member |
|---|---|---|---|---|---|---|
| models/base_sequence.go:106-126 | `GetAllSequence` takes an `exclude` map but never applies it; only `query` becomes conditions | `exclude` = {`Active`: false}, no sort: the query carries no exclusion, so inactive counters are still listed | rewrite each `exclude` key and apply it with `Exclude`, as `GetAllProductAttributeValue` does at lines 113-118 | medium; not executed | ListQuery.SequenceListDropsExclusion | ListQuery.SequenceListQueryWithExclude |
