/**
  The `tokens` table depends on fetch outcomes as well as on the chain, so it is specified
  against the history of committed attempts: per token, one attempt for every committed
  block that fetched it.
 */
module TokenHistory {
  import opened Chain
  import opened Extraction
  import opened Schema
  import opened Index

  datatype Attempt = Attempt(metadata: Metadata, fetchedAt: nat)

  type History = map<Address, seq<Attempt>>

  predicate Ok(attempt: Attempt) {
    attempt.metadata != NOTHING_DECODED
  }

  function AttemptsOf(history: History, token: Address): seq<Attempt> {
    if token in history then history[token] else []
  }

  /** None, ok, fail, fail-then-ok, fail-then-fail: nothing else ever happens to a token. */
  predicate Lifecycle(attempts: seq<Attempt>) {
    |attempts| <= 1 || (|attempts| == 2 && !Ok(attempts[0]))
  }

  /** 0 after a success, else the number of failures (1 pending, 2 terminal). */
  function StatusOf(attempts: seq<Attempt>): nat
    requires attempts != []
  {
    if Ok(attempts[|attempts| - 1]) then 0 else |attempts|
  }

  function EntryOf(attempts: seq<Attempt>): TokenEntry
    requires attempts != []
  {
    var last := attempts[|attempts| - 1];
    TokenEntry(last.metadata, StatusOf(attempts), last.fetchedAt)
  }

  /** Every stored row is what its token's attempts add up to, and only attempted tokens have rows. */
  ghost predicate Explains(history: History, table: map<Address, TokenEntry>) {
    && history.Keys == table.Keys
    && forall token :: token in table ==>
         && history[token] != [] && Lifecycle(history[token])
         && table[token] == EntryOf(history[token])
  }

  /**
    No row without an attempt; at most two, a second one only after nothing was decoded; the row
    carries the last answer, status 0 as soon as one field of it was decoded, else 1 or 2.
   */
  ghost predicate RowExplained(table: map<Address, TokenEntry>, token: Address, attempts: seq<Attempt>) {
    && (token in table <==> attempts != [])
    && |attempts| <= 2
    && (|attempts| == 2 ==> attempts[0].metadata == NOTHING_DECODED)
    && (token in table ==>
          var last, entry := attempts[|attempts| - 1], table[token];
          && entry.metadata == last.metadata && entry.fetchedAt == last.fetchedAt
          && entry.status == if last.metadata != NOTHING_DECODED then 0 else |attempts|)
  }

  lemma ExplainedRow(history: History, table: map<Address, TokenEntry>, token: Address)
    requires Explains(history, table)
    ensures RowExplained(table, token, AttemptsOf(history, token))
  {
  }

  /** One decoded field is enough for a success. */
  lemma OneFieldSuffices(token: Address, metadata: Metadata, fetchedAt: nat)
    ensures AttemptRow(token, metadata, fetchedAt).status == 0 <==>
            metadata.name.Some? || metadata.symbol.Some? || metadata.decimals.Some?
    ensures AttemptRow(token, metadata, fetchedAt).status in {0, 1}
  {
  }

  /** Committing `rows` adds one attempt per row. */
  function Record(history: History, rows: seq<TokenRow>): History {
    if rows == [] then history
    else RecordOne(Record(history, rows[..|rows| - 1]), rows[|rows| - 1])
  }

  ghost predicate DistinctRows(rows: seq<TokenRow>) {
    forall i, j :: 0 <= i < j < |rows| ==> rows[i].address != rows[j].address
  }

  /** The rows are genuine attempts at tokens the table still allows to be fetched. */
  ghost predicate Allowed(rows: seq<TokenRow>, table: map<Address, TokenEntry>) {
    forall i :: 0 <= i < |rows| ==>
      && (rows[i].address !in table || table[rows[i].address].status == 1)
      && rows[i].status == if rows[i].metadata == NOTHING_DECODED then 1 else 0
  }

  predicate Mentions(rows: seq<TokenRow>, token: Address) {
    exists i :: 0 <= i < |rows| && rows[i].address == token
  }

  function RecordOne(history: History, row: TokenRow): History {
    history[row.address := AttemptsOf(history, row.address) + [Attempt(row.metadata, row.fetchedAt)]]
  }

  lemma RecordOneExplains(history: History, table: map<Address, TokenEntry>, row: TokenRow)
    requires Explains(history, table) && (row.address !in table || table[row.address].status == 1)
    requires row.status == if row.metadata == NOTHING_DECODED then 1 else 0
    ensures Explains(RecordOne(history, row), UpsertToken(table, row))
  {
    var before := AttemptsOf(history, row.address);
    var attempts := before + [Attempt(row.metadata, row.fetchedAt)];
    if row.address in table {
      assert table[row.address] == EntryOf(before) && |before| == 1;
    } else {
      assert before == [];
    }
    assert UpsertToken(table, row)[row.address] == EntryOf(attempts);
  }

  lemma {:induction false} RecordExplains(history: History, table: map<Address, TokenEntry>, rows: seq<TokenRow>)
    requires Explains(history, table) && DistinctRows(rows) && Allowed(rows, table)
    ensures Explains(Record(history, rows), UpsertTokens(table, rows))
  {
    if rows != [] {
      var init, last := rows[..|rows| - 1], rows[|rows| - 1];
      assert Allowed(init, table) && DistinctRows(init);
      RecordExplains(history, table, init);
      UpsertLeavesOthers(table, init, last.address);
      RecordOneExplains(Record(history, init), UpsertTokens(table, init), last);
    }
  }

  /** Tokens the rows do not mention keep their row. */
  lemma {:induction false} UpsertLeavesOthers(table: map<Address, TokenEntry>, rows: seq<TokenRow>, token: Address)
    requires !Mentions(rows, token)
    ensures token in UpsertTokens(table, rows) <==> token in table
    ensures token in table ==> UpsertTokens(table, rows)[token] == table[token]
  {
    if rows != [] {
      var init := rows[..|rows| - 1];
      assert forall i :: 0 <= i < |init| ==> init[i] == rows[i];
      UpsertLeavesOthers(table, init, token);
      assert rows[|rows| - 1].address != token;
    }
  }

  /** Every row is one more attempt of its token, with the row's content; everything else is kept. */
  lemma {:induction false} RecordAppends(history: History, rows: seq<TokenRow>, token: Address)
    requires DistinctRows(rows)
    ensures !Mentions(rows, token) ==> AttemptsOf(Record(history, rows), token) == AttemptsOf(history, token)
    ensures forall i :: 0 <= i < |rows| && rows[i].address == token ==>
              AttemptsOf(Record(history, rows), token)
              == AttemptsOf(history, token) + [Attempt(rows[i].metadata, rows[i].fetchedAt)]
  {
    if rows != [] {
      var init, last := rows[..|rows| - 1], rows[|rows| - 1];
      RecordAppends(history, init, token);
      assert forall i :: 0 <= i < |init| ==> init[i] == rows[i];
      if token == last.address {
        assert rows[|rows| - 1].address == token && !Mentions(init, token);
      } else if Mentions(rows, token) {
        var i :| 0 <= i < |rows| && rows[i].address == token;
        assert init[i].address == token;
      }
    }
  }

  /** A token this block has to fetch: it emitted here and was never tried, or failed once. */
  predicate Due(table: map<Address, TokenEntry>, candidates: seq<Address>, token: Address) {
    token in candidates && (token !in table || table[token].status == 1)
  }

  /** The rows handed in are one genuine attempt for every token due, and for no other. */
  lemma RowsAreDue(table: map<Address, TokenEntry>, candidates: seq<Address>, rows: seq<TokenRow>)
    requires Distinct(candidates) && RowsForList(rows, FetchList(table, candidates))
    ensures DistinctRows(rows) && Allowed(rows, table)
    ensures forall token :: Mentions(rows, token) <==> Due(table, candidates, token)
  {
    FetchListExact(table, candidates);
    FetchListDistinct(table, candidates);
    var need := FetchList(table, candidates);
    forall i | 0 <= i < |rows| ensures rows[i].address == need[i] && rows[i].address in need {
    }
    forall token ensures Mentions(rows, token) <==> token in need {
      if token in need {
        var i :| 0 <= i < |need| && need[i] == token;
        assert rows[i].address == token;
      }
    }
  }

  /**
    One committed block: exactly one attempt for every token due, none for any other, and ok or
    terminal rows stay as they are.
   */
  lemma BlockMovesTokenOnce(
      history: History, table: map<Address, TokenEntry>, candidates: seq<Address>, rows: seq<TokenRow>)
    requires Explains(history, table) && Distinct(candidates)
    requires RowsForList(rows, FetchList(table, candidates))
    ensures Explains(Record(history, rows), UpsertTokens(table, rows))
    ensures forall token ::
              && AttemptsOf(history, token) <= AttemptsOf(Record(history, rows), token)
              && |AttemptsOf(Record(history, rows), token)|
                 == |AttemptsOf(history, token)|
                    + if token in candidates && (token !in table || table[token].status == 1) then 1 else 0
    ensures forall token :: token in table && table[token].status != 1 ==>
              token in UpsertTokens(table, rows) && UpsertTokens(table, rows)[token] == table[token]
  {
    RowsAreDue(table, candidates, rows);
    RecordExplains(history, table, rows);
    forall token
      ensures AttemptsOf(history, token) <= AttemptsOf(Record(history, rows), token)
      ensures |AttemptsOf(Record(history, rows), token)|
              == |AttemptsOf(history, token)| + if Due(table, candidates, token) then 1 else 0
    {
      RecordAppends(history, rows, token);
      if Mentions(rows, token) {
        var i :| 0 <= i < |rows| && rows[i].address == token;
      }
    }
    forall token | token in table && table[token].status != 1
      ensures token in UpsertTokens(table, rows) && UpsertTokens(table, rows)[token] == table[token]
    {
      assert !Mentions(rows, token);
      UpsertLeavesOthers(table, rows, token);
    }
  }

  /** The same for one token. */
  lemma TokenAfterBlock(
      history: History, table: map<Address, TokenEntry>, candidates: seq<Address>, rows: seq<TokenRow>, token: Address)
    requires Explains(history, table) && Distinct(candidates)
    requires RowsForList(rows, FetchList(table, candidates))
    ensures AttemptsOf(history, token) <= AttemptsOf(Record(history, rows), token)
    ensures |AttemptsOf(Record(history, rows), token)| <= |AttemptsOf(history, token)| + 1
    ensures token in table ==> token in UpsertTokens(table, rows)
    ensures token in table && table[token].status != 1 ==> UpsertTokens(table, rows)[token] == table[token]
  {
    BlockMovesTokenOnce(history, table, candidates, rows);
    UpsertKeys(table, rows);
  }
}
