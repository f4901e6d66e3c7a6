/** Named, prefixed, zero-padded counters used to number sales orders,
    purchase orders and the like, and the allocator that hands out their next
    value. The table of counters is a map from primary key to row. */
module BaseSequence {
  import opened Wrappers
  import opened Decimal
  import opened GoFormat
  import opened Store

  /** One counter row. Audit columns (creating and updating user, dates) and
      the transient form-action field play no part in the logic modelled. */
  datatype Sequence = Sequence(
    id: int,
    name: string,
    prefix: string,
    current: int,
    padding: int,
    structName: string,
    active: bool,
    isDefault: bool)

  /** Largest value of Go's `int64`, the type of `Current`. */
  const MaxInt64: int := 0x7fff_ffff_ffff_ffff

  /** Widths up to this bound are read by Go's formatter without overflow. */
  const MaxWidth: int := 1_000_000

  /** The row the allocator's query selects for `structName`. */
  predicate IsDefaultFor(s: Sequence, structName: string) {
    s.structName == structName && s.active && s.isDefault
  }

  /** Rows the allocator formats as intended: a counter that can be
      incremented without leaving `int64` and is not negative, a width the
      formatter reads as a width, and a prefix holding no formatting verb. */
  predicate Allocatable(s: Sequence) {
    CanAllocate(s, 1)
  }

  /** Rows from which `k` allocations in a row stay within `int64`. */
  predicate CanAllocate(s: Sequence, k: nat) {
    0 <= s.current && s.current + k <= MaxInt64 && 0 <= s.padding <= MaxWidth && '%' !in s.prefix
  }

  /** Every row is stored under its own primary key. */
  predicate WellKeyed(table: map<int, Sequence>) {
    forall k | k in table :: table[k].id == k
  }

  /** The format string the allocator assembles: the prefix, then `%0`, the
      padding in decimal, and the verb `s`. */
  function FormatString(prefix: string, padding: nat): string {
    prefix + ZeroPadVerbText(padding)
  }

  /** The verb part of the format string: `%0`, the padding in decimal, `s`. */
  function ZeroPadVerbText(padding: nat): string {
    "%0" + Itoa(padding) + "s"
  }

  /** The sequence value for counter value `n`: the prefix, then `n` in
      decimal, left-padded with '0' to at least `padding` digits. */
  function FormatSequence(prefix: string, padding: nat, n: nat): (r: string)
    ensures |r| == |prefix| + Max(|Itoa(n)|, padding)
    ensures r[..|prefix|] == prefix
  {
    var r := prefix + PadLeft(Itoa(n), padding, '0');
    assert r[..|prefix|] == prefix;
    r
  }

  /** The allocator's own computation, `Sprintf` on the assembled format
      string with the counter's decimal text, is `FormatSequence`; this
      needs a prefix without '%', which would otherwise start a verb. */
  lemma FormatSequenceIsSprintf(prefix: string, padding: nat, n: nat)
    requires '%' !in prefix
    ensures Sprintf(FormatString(prefix, padding), Itoa(n)) == Some(FormatSequence(prefix, padding, n))
  {
    SequenceFormatSprintf(prefix, padding, Itoa(n));
  }

  /** After the prefix comes a digit string spelling `n`, never truncated:
      when `n` has at least `padding` digits it appears exactly as `Itoa`
      spells it, otherwise it is preceded by '0's up to `padding` digits. */
  lemma FormatSequenceSuffix(prefix: string, padding: nat, n: nat)
    ensures var suffix := FormatSequence(prefix, padding, n)[|prefix|..];
      && AllDigits(suffix) && Value(suffix) == n
      && |suffix| == Max(|Itoa(n)|, padding)
      && suffix[|suffix| - |Itoa(n)|..] == Itoa(n)
      && (forall i | 0 <= i < |suffix| - |Itoa(n)| :: suffix[i] == '0')
  {
    var padded := PadLeft(Itoa(n), padding, '0');
    assert FormatSequence(prefix, padding, n)[|prefix|..] == padded;
    PaddedValue(padding, n);
  }

  /** Go's `Sprintf` on the assembled format string prints the prefix and
      then the zero-padded argument. */
  lemma SequenceFormatSprintf(prefix: string, padding: nat, arg: string)
    requires '%' !in prefix
    ensures Sprintf(FormatString(prefix, padding), arg) == Some(prefix + PadLeft(arg, padding, '0'))
  {
    var verb := ZeroPadVerbText(padding);
    SprintfCopiesLiteralPrefix(prefix, verb, arg);
    ZeroPadVerb(padding, arg);
  }

  /** Zero padding keeps the decimal value. */
  lemma PaddedValue(padding: nat, n: nat)
    ensures AllDigits(PadLeft(Itoa(n), padding, '0')) && Value(PadLeft(Itoa(n), padding, '0')) == n
  {
    var digits := Itoa(n);
    ValueOfItoa(n);
    if |digits| < padding {
      assert PadLeft(digits, padding, '0') == Repeat('0', padding - |digits|) + digits;
      ValueIgnoresLeadingZeros(padding - |digits|, digits);
    }
  }

  /** Reads a sequence value back: the counter value spelled after `prefix`,
      or `None` if the text does not have that shape. */
  function ParseSequence(prefix: string, s: string): (r: Option<nat>)
    ensures r.Some? ==> |s| > |prefix| && s[..|prefix|] == prefix
  {
    if |s| > |prefix| && s[..|prefix|] == prefix && AllDigits(s[|prefix|..])
    then Some(Value(s[|prefix|..]))
    else None
  }

  /** Parsing inverts formatting. */
  lemma ParseFormatted(prefix: string, padding: nat, n: nat)
    ensures ParseSequence(prefix, FormatSequence(prefix, padding, n)) == Some(n)
  {
    FormatSequenceSuffix(prefix, padding, n);
  }

  /** Distinct counter values give distinct sequence values. */
  lemma FormatInjective(prefix: string, padding: nat, n: nat, m: nat)
    requires FormatSequence(prefix, padding, n) == FormatSequence(prefix, padding, m)
    ensures n == m
  {
    ParseFormatted(prefix, padding, n);
    ParseFormatted(prefix, padding, m);
  }

  /** What the allocator returns: the sequence value (empty when the lookup
      failed), the errors, and the counter table afterwards. */
  datatype Allocation = Allocation(stStr: string, errs: seq<Error>, table: map<int, Sequence>)

  /** `GetNextSequece`. `lookup` is the outcome of the query for the active,
      default counter of `structName` (a primary key or the query's error);
      `updateErr` is the outcome of persisting the incremented row. */
  function GetNextSequence(table: map<int, Sequence>, structName: string,
                           lookup: Result<int, Error>, updateErr: Option<Error>): (r: Allocation)
    requires lookup.Success? ==>
      lookup.value in table && IsDefaultFor(table[lookup.value], structName) && Allocatable(table[lookup.value])
    ensures lookup.Failure? ==> r == Allocation("", [lookup.error], table)
    ensures lookup.Success? ==>
      var s := table[lookup.value];
      r.stStr == FormatSequence(s.prefix, s.padding, s.current + 1)
    ensures lookup.Success? && updateErr.Some? ==> r.errs == [updateErr.value] && r.table == table
    ensures lookup.Success? && updateErr.None? ==>
      var id := lookup.value;
      && r.errs == []
      && r.table.Keys == table.Keys
      && r.table[id] == table[id].(current := table[id].current + 1)
      && forall k | k in table && k != id :: r.table[k] == table[k]
    ensures WellKeyed(table) ==> WellKeyed(r.table)
  {
    match lookup
    case Failure(e) => Allocation("", [e], table)
    case Success(id) =>
      var next := table[id].(current := table[id].current + 1);
      var fmtStr := FormatString(next.prefix, next.padding);
      FormatSequenceIsSprintf(next.prefix, next.padding, next.current);
      var stStr := Sprintf(fmtStr, Itoa(next.current)).value;
      if updateErr.Some? then Allocation(stStr, [updateErr.value], table)
      else Allocation(stStr, [], table[id := next])
  }

  /** The value handed out spells the counter value that was stored, and it
      is handed out even when storing fails. */
  lemma ReturnedMatchesStored(table: map<int, Sequence>, structName: string, id: int, updateErr: Option<Error>)
    requires id in table && IsDefaultFor(table[id], structName) && Allocatable(table[id])
    ensures var r := GetNextSequence(table, structName, Success(id), updateErr);
      && ParseSequence(table[id].prefix, r.stStr) == Some(table[id].current + 1)
      && (updateErr.None? ==> ParseSequence(table[id].prefix, r.stStr) == Some(r.table[id].current))
  {
    ParseFormatted(table[id].prefix, table[id].padding, table[id].current + 1);
  }

  /** `k` allocations in a row from one counter row, each update succeeding:
      the values handed out, in order, and the row afterwards. */
  function AllocateMany(s: Sequence, k: nat): (r: (seq<string>, Sequence))
    requires CanAllocate(s, k)
    ensures |r.0| == k
    ensures r.1 == s.(current := s.current + k)
    decreases k
  {
    if k == 0 then ([], s)
    else
      var next := s.(current := s.current + 1);
      var rest := AllocateMany(next, k - 1);
      ([FormatSequence(next.prefix, next.padding, next.current)] + rest.0, rest.1)
  }

  /** The `i`-th of `k` consecutive allocations hands out the counter value
      `i + 1` above the starting one: no value is skipped or repeated. */
  lemma {:induction false} AllocateManyValues(s: Sequence, k: nat, i: nat)
    requires CanAllocate(s, k)
    requires i < k
    ensures AllocateMany(s, k).0[i] == FormatSequence(s.prefix, s.padding, s.current + i + 1)
    decreases k
  {
    var next := s.(current := s.current + 1);
    assert next.prefix == s.prefix && next.padding == s.padding;
    var rest := AllocateMany(next, k - 1);
    var values := [FormatSequence(next.prefix, next.padding, next.current)] + rest.0;
    assert AllocateMany(s, k).0 == values;
    var n: nat := s.current + i + 1;
    if i == 0 {
      assert next.current == n;
      assert values[i] == FormatSequence(s.prefix, s.padding, n);
    } else {
      AllocateManyValues(next, k - 1, i - 1);
      assert next.current + (i - 1) + 1 == n;
      assert values[i] == rest.0[i - 1] == FormatSequence(s.prefix, s.padding, n);
    }
  }

  /** Values handed out by consecutive successful allocations are pairwise
      distinct and strictly increasing. */
  lemma AllocationsIncrease(s: Sequence, k: nat, i: nat, j: nat)
    requires CanAllocate(s, k)
    requires i < j < k
    ensures var vs := AllocateMany(s, k).0;
      && ParseSequence(s.prefix, vs[i]) == Some(s.current + i + 1)
      && ParseSequence(s.prefix, vs[j]) == Some(s.current + j + 1)
      && vs[i] != vs[j]
  {
    AllocateManyValues(s, k, i);
    AllocateManyValues(s, k, j);
    ParseFormatted(s.prefix, s.padding, s.current + i + 1);
    ParseFormatted(s.prefix, s.padding, s.current + j + 1);
  }

  /** `AllocateMany` is what repeated `GetNextSequence` calls do to the table
      when the lookup keeps selecting row `id` and every update succeeds. */
  lemma {:induction false} AllocateManyIsRepeatedCalls(table: map<int, Sequence>, structName: string, id: int, k: nat)
    requires id in table && IsDefaultFor(table[id], structName) && CanAllocate(table[id], k)
    requires k >= 1
    ensures var a := GetNextSequence(table, structName, Success(id), None);
      && id in a.table
      && a.stStr == AllocateMany(table[id], k).0[0]
      && a.table[id] == table[id].(current := table[id].current + 1)
      && (k >= 2 ==> AllocateMany(a.table[id], k - 1).0 == AllocateMany(table[id], k).0[1..])
  {
    var s := table[id];
    var next := s.(current := s.current + 1);
    var rest := AllocateMany(next, k - 1);
    assert AllocateMany(s, k).0 == [FormatSequence(next.prefix, next.padding, next.current)] + rest.0;
  }

  /** `UpdateSequenceByID`: read-before-write by the row's own key. */
  function UpdateSequenceByID(table: map<int, Sequence>, m: Sequence, readErr: Option<Error>,
                              updateErr: Option<Error>)
    : (r: WriteResult<Sequence>)
    ensures readErr.Some? ==> r.err == readErr && r.table == table
    ensures readErr.None? && m.id !in table ==> r.err == Some(NoRows) && r.table == table
    ensures r.err.Some? ==> r.table == table
    ensures readErr.None? && m.id in table && updateErr.Some? ==> r == WriteResult(table, updateErr)
    ensures readErr.None? && m.id in table && updateErr.None? ==>
      r.err.None? && r.table.Keys == table.Keys && r.table[m.id] == m &&
      forall k | k in table && k != m.id :: r.table[k] == table[k]
    ensures WellKeyed(table) ==> WellKeyed(r.table)
  {
    UpdateByID(table, m.id, m, readErr, updateErr)
  }

  /** `DeleteSequence`: read-before-write, then delete by key. */
  function DeleteSequence(table: map<int, Sequence>, id: int, readErr: Option<Error>,
                          deleteErr: Option<Error>)
    : (r: WriteResult<Sequence>)
    ensures readErr.Some? ==> r.err == readErr && r.table == table
    ensures readErr.None? && id !in table ==> r.err == Some(NoRows) && r.table == table
    ensures r.err.Some? <==> r.table == table
    ensures readErr.None? && id in table && deleteErr.Some? ==> r == WriteResult(table, deleteErr)
    ensures readErr.None? && id in table && deleteErr.None? ==>
      r.err.None? && r.table.Keys == table.Keys - {id} &&
      forall k | k in r.table :: r.table[k] == table[k]
    ensures WellKeyed(table) ==> WellKeyed(r.table)
  {
    DeleteFailsIffUnchanged(table, id, readErr, deleteErr);
    DeleteByID(table, id, readErr, deleteErr)
  }
}
