/** The memory, file and SQLite indexes give the same answers to every sequence of valid operations. */
module IndexAgreement {
  import opened Text
  import opened Json
  import opened ExecutionActions
  import opened ActiveKeyIndex
  import opened FilesystemIndex
  import opened FilesystemActiveKeys
  import opened SqliteActiveKeys

  ghost function FileRun(file: Option<Bytes>, ops: seq<Op>, n: nat): Option<Bytes>
    requires n <= |ops|
  {
    if n == 0 then file else FileStep(FileRun(file, ops, n - 1), ops[n - 1]).0
  }

  function SqlRun(t: Table, ops: seq<Op>, n: nat): Table
    requires n <= |ops|
  {
    if n == 0 then t else SqlStep(SqlRun(t, ops, n - 1), ops[n - 1]).0
  }

  /** All three stand for the same map, with room for every operation still to come. */
  ghost predicate Agree(file: Option<Bytes>, t: Table, es: Entries, room: nat) {
    ReadFile(file) == Some(es) && Represents(t, es) && Roomy(es, room)
  }

  lemma AgreeNext(file: Option<Bytes>, t: Table, es: Entries, op: Op, room: nat)
    requires 0 < room <= MAX_SAFE_INTEGER && Agree(file, t, es, room) && ValidOp(op)
    ensures Agree(FileStep(file, op).0, SqlStep(t, op).0, Perform(es, op), room - 1)
  {
    FileStepRefines(file, es, op, room);
    SqlStepRefines(t, es, op);
    StepUsesRoom(es, op, room);
  }

  lemma {:induction false} RunsAgree(file: Option<Bytes>, t: Table, es: Entries, ops: seq<Op>, n: nat)
    requires n <= |ops| <= MAX_SAFE_INTEGER && Agree(file, t, es, |ops|)
    requires forall i | 0 <= i < |ops| :: ValidOp(ops[i])
    ensures Agree(FileRun(file, ops, n), SqlRun(t, ops, n), Run(es, ops, n), |ops| - n)
  {
    if n > 0 {
      RunsAgree(file, t, es, ops, n - 1);
      AgreeNext(FileRun(file, ops, n - 1), SqlRun(t, ops, n - 1), Run(es, ops, n - 1), ops[n - 1], |ops| - n + 1);
    }
  }

  /** Every operation of the run gets the same answer from all three. */
  lemma AnswersAgree(file: Option<Bytes>, t: Table, es: Entries, ops: seq<Op>, n: nat)
    requires n < |ops| <= MAX_SAFE_INTEGER && Agree(file, t, es, |ops|)
    requires forall i | 0 <= i < |ops| :: ValidOp(ops[i])
    ensures FileStep(FileRun(file, ops, n), ops[n]).1 == Some(Result(Run(es, ops, n), ops[n]))
    ensures SqlStep(SqlRun(t, ops, n), ops[n]).1 == Some(Result(Run(es, ops, n), ops[n]))
  {
    RunsAgree(file, t, es, ops, n);
    FileStepRefines(FileRun(file, ops, n), Run(es, ops, n), ops[n], |ops| - n);
    SqlStepRefines(SqlRun(t, ops, n), Run(es, ops, n), ops[n]);
  }

  /** At every point of the run the three report the same entry for a key and list the same active keys. */
  lemma QueriesAgree(file: Option<Bytes>, t: Table, es: Entries, ops: seq<Op>, n: nat, k: CacheKey,
                     fromMap: seq<Text>, fromFile: seq<Text>, fromTable: seq<Text>)
    requires n <= |ops| <= MAX_SAFE_INTEGER && Agree(file, t, es, |ops|)
    requires forall i | 0 <= i < |ops| :: ValidOp(ops[i])
    requires ValidKey(k)
    ensures ReadFile(FileRun(file, ops, n)).Some? && RowOf(k).Some? && NamespaceText(k.namespace).Some?
    ensures EntryOf(ReadFile(FileRun(file, ops, n)).value, k) == EntryOf(Run(es, ops, n), k)
    ensures EntryAt(SqlRun(t, ops, n), RowOf(k).value) == EntryOf(Run(es, ops, n), k)
    ensures && ListsActive(Run(es, ops, n), k.namespace, fromMap)
            && ListsActive(ReadFile(FileRun(file, ops, n)).value, k.namespace, fromFile)
            && ListsRows(SqlRun(t, ops, n), NamespaceText(k.namespace).value, fromTable)
            ==> fromMap == fromFile == fromTable
  {
    RunsAgree(file, t, es, ops, n);
    ValidHasRow(k);
    EntryRepresented(SqlRun(t, ops, n), Run(es, ops, n), k);
    if ListsRows(SqlRun(t, ops, n), NamespaceText(k.namespace).value, fromTable) {
      RowListing(SqlRun(t, ops, n), Run(es, ops, n), k.namespace, fromTable);
      if ListsActive(Run(es, ops, n), k.namespace, fromMap) && ListsActive(Run(es, ops, n), k.namespace, fromFile) {
        ListingUnique(Run(es, ops, n), k.namespace, fromMap, fromFile);
        ListingUnique(Run(es, ops, n), k.namespace, fromMap, fromTable);
      }
    }
  }

  /**
   Fresh indexes agree on everything: no file yet, an empty table and the empty map give the same answers and the same
   entries over every run of at most 2^53 - 1 valid operations.
   */
  lemma FreshIndexesAgree(ops: seq<Op>, n: nat)
    requires n < |ops| <= MAX_SAFE_INTEGER && forall i | 0 <= i < |ops| :: ValidOp(ops[i])
    ensures FileStep(FileRun(None, ops, n), ops[n]).1 == Some(Result(Run(map[], ops, n), ops[n]))
    ensures SqlStep(SqlRun(map[], ops, n), ops[n]).1 == Some(Result(Run(map[], ops, n), ops[n]))
    ensures ReadFile(FileRun(None, ops, n)) == Some(Run(map[], ops, n))
    ensures Represents(SqlRun(map[], ops, n), Run(map[], ops, n))
  {
    assert Agree(None, map[], map[], |ops|);
    AnswersAgree(None, map[], map[], ops, n);
    RunsAgree(None, map[], map[], ops, n);
  }
}
