/**
 Batched embedding through a server (codebase_rag/embedder.py): rows placed at their declared index, chunking, and the
 cache in front of it.  The cache is keyed by the snippet, for a hash without collisions and a fixed model.
 */
module Embedder {
  import opened Options
  import opened Orders

  datatype Error = HttpError | MalformedResponse | CountMismatch | BadIndex | IndexError

  datatype Result<T> = Success(value: T) | Failure(error: Error)

  // One element of "data": not an object with both keys, or an index that may not be an integer and an embedding that
  // may be null.
  datatype Row<V> = NotARow | Row(index: Option<int>, embedding: Option<V>)

  datatype Response<V> = HttpFailure | NotRows | Rows(rows: seq<Row<V>>)

  // ----- what is placed where -----

  // [row for row in placed if row is not None]
  function Present<V>(placed: seq<Option<V>>): (present: seq<V>)
    ensures |present| <= |placed|
  {
    if placed == [] then []
    else (if placed[0].Some? then [placed[0].value] else []) + Present(placed[1..])
  }

  // Nothing is skipped exactly when every slot is filled, and then slots and results line up.
  lemma {:induction false} PresentFull<V>(placed: seq<Option<V>>)
    ensures |Present(placed)| == |placed| <==> forall k :: 0 <= k < |placed| ==> placed[k].Some?
    ensures |Present(placed)| == |placed| ==> forall k :: 0 <= k < |placed| ==> placed[k] == Some(Present(placed)[k])
  {
    if placed != [] {
      PresentFull(placed[1..]);
      assert forall k :: 0 < k < |placed| ==> placed[k] == placed[1..][k - 1];
    }
  }

  lemma {:induction false} PresentFills<V>(placed: seq<Option<V>>, k: nat, v: V)
    requires k < |placed| && placed[k].None?
    ensures |Present(placed[k := Some(v)])| == |Present(placed)| + 1
  {
    if k > 0 {
      assert placed[k := Some(v)][1..] == placed[1..][k - 1 := Some(v)];
      PresentFills(placed[1..], k - 1, v);
    } else {
      assert placed[k := Some(v)][1..] == placed[1..];
    }
  }

  // What is present of a list is that of its parts in turn.
  lemma {:induction false} PresentAppend<V>(a: seq<Option<V>>, b: seq<Option<V>>)
    ensures Present(a + b) == Present(a) + Present(b)
    ensures |a| == 1 ==> Present(a) == if a[0].Some? then [a[0].value] else []
  {
    if a != [] {
      var head := if a[0].Some? then [a[0].value] else [];
      PresentAppend(a[1..], b);
      assert (a + b)[1..] == a[1..] + b && (a + b)[0] == a[0];
      Joined(head, Present(a[1..]), Present(b));
    } else {
      assert a + b == b;
    }
  }

  // An empty slot shifts every later row by one snippet.
  lemma {:induction false} NullShifts<V>(placed: seq<Option<V>>, k: nat, j: nat)
    requires k < j < |placed| && placed[j].Some?
    requires forall i :: 0 <= i < k ==> placed[i].Some?
    requires forall i :: k <= i < j ==> placed[i].None?
    ensures k < |Present(placed)| && Present(placed)[k] == placed[j].value
  {
    if k > 0 {
      NullShifts(placed[1..], k - 1, j - 1);
    } else if j > 1 {
      NullShifts(placed[1..], 0, j - 1);
    }
  }

  // ----- one response -----

  predicate InRange<V>(row: Row<V>, expected: nat) {
    row.Row? && row.index.Some? && 0 <= row.index.value < expected
  }

  // Every row has an index in range, and none repeats the index of an earlier one that brought an embedding.
  ghost predicate Acceptable<V>(rows: seq<Row<V>>, expected: nat) {
    && (forall i :: 0 <= i < |rows| ==> InRange(rows[i], expected))
    && forall i, j :: 0 <= i < j < |rows| && rows[i].embedding.Some? ==> rows[i].index != rows[j].index
  }

  ghost predicate NoNulls<V>(rows: seq<Row<V>>) {
    forall i :: 0 <= i < |rows| ==> rows[i].Row? && rows[i].embedding.Some?
  }

  // The slots after the rows have been placed: each slot has what a row brought for it, or nothing.
  ghost predicate Slots<V>(rows: seq<Row<V>>, placed: seq<Option<V>>) {
    && Acceptable(rows, |placed|)
    && (forall i :: 0 <= i < |rows| && rows[i].embedding.Some? ==>
          placed[rows[i].index.value] == rows[i].embedding)
    && (forall k :: 0 <= k < |placed| && placed[k].Some? ==>
          exists i :: 0 <= i < |rows| && rows[i].index == Some(k) && rows[i].embedding == placed[k])
    && |Present(placed)| == Embeddings(rows)
  }

  // How many rows brought an embedding.
  function Embeddings<V>(rows: seq<Row<V>>): nat {
    if rows == [] then 0
    else
      var last := rows[|rows| - 1];
      Embeddings(rows[..|rows| - 1]) + if last.Row? && last.embedding.Some? then 1 else 0
  }

  lemma {:induction false} AllEmbeddings<V>(rows: seq<Row<V>>)
    ensures Embeddings(rows) <= |rows|
    ensures Embeddings(rows) == |rows| <==> NoNulls(rows)
  {
    if rows != [] {
      AllEmbeddings(rows[..|rows| - 1]);
    }
  }

  // [None] * n
  function EmptySlots<V>(n: nat): (slots: seq<Option<V>>)
    ensures |slots| == n && forall k :: 0 <= k < n ==> slots[k] == None
  {
    seq(n, _ => None)
  }

  lemma {:induction false} NothingPresent<V>(slots: seq<Option<V>>)
    requires forall k :: 0 <= k < |slots| ==> slots[k] == None
    ensures Present(slots) == []
  {
    if slots != [] {
      NothingPresent(slots[1..]);
    }
  }

  // The loop over the rows, for rows in range.
  function PlaceAll<V>(rows: seq<Row<V>>, expected: nat): (placed: seq<Option<V>>)
    requires forall i :: 0 <= i < |rows| ==> InRange(rows[i], expected)
    ensures |placed| == expected
  {
    if rows == [] then EmptySlots(expected)
    else
      var last := rows[|rows| - 1];
      assert InRange(last, expected);
      PlaceAll(rows[..|rows| - 1], expected)[last.index.value := last.embedding]
  }

  lemma PlaceRow<V>(rows: seq<Row<V>>, i: nat, placed: seq<Option<V>>)
    requires i < |rows| && Slots(rows[..i], placed) && InRange(rows[i], |placed|)
    requires placed[rows[i].index.value].None?
    ensures Slots(rows[..i + 1], placed[rows[i].index.value := rows[i].embedding])
  {
    assert rows[..i + 1] == rows[..i] + [rows[i]];
    PlaceNext(rows[..i], rows[i], placed);
  }

  lemma PlaceNext<V>(before: seq<Row<V>>, row: Row<V>, placed: seq<Option<V>>)
    requires Slots(before, placed) && InRange(row, |placed|) && placed[row.index.value].None?
    ensures Slots(before + [row], placed[row.index.value := row.embedding])
  {
    var placed', index := placed[row.index.value := row.embedding], row.index.value;
    PlacedFrom(before, row, placed);
    assert (before + [row])[..|before|] == before;
    if row.embedding.Some? {
      PresentFills(placed, index, row.embedding.value);
    } else {
      assert placed' == placed;
    }
  }

  lemma PlacedFrom<V>(before: seq<Row<V>>, row: Row<V>, placed: seq<Option<V>>)
    requires Slots(before, placed) && InRange(row, |placed|) && placed[row.index.value].None?
    ensures var placed' := placed[row.index.value := row.embedding];
            forall k :: 0 <= k < |placed'| && placed'[k].Some? ==>
              exists j :: 0 <= j < |before + [row]| && (before + [row])[j].index == Some(k)
                          && (before + [row])[j].embedding == placed'[k]
  {
    var placed', after := placed[row.index.value := row.embedding], before + [row];
    forall k | 0 <= k < |placed'| && placed'[k].Some?
      ensures exists j :: 0 <= j < |after| && after[j].index == Some(k) && after[j].embedding == placed'[k]
    {
      if k == row.index.value {
        assert after[|before|] == row;
      } else {
        var j :| 0 <= j < |before| && before[j].index == Some(k) && before[j].embedding == placed[k];
        assert after[j] == before[j];
      }
    }
  }

  lemma AcceptableBefore<V>(rows: seq<Row<V>>, expected: nat, i: nat)
    requires i < |rows| && Acceptable(rows, expected)
    ensures Acceptable(rows[..i], expected) && InRange(rows[i], expected)
  {
    assert forall j :: 0 <= j < i ==> rows[..i][j] == rows[j];
  }

  lemma SlotFree<V>(rows: seq<Row<V>>, i: nat, placed: seq<Option<V>>)
    requires i < |rows| && Acceptable(rows, |placed|) && Slots(rows[..i], placed) && InRange(rows[i], |placed|)
    ensures placed[rows[i].index.value].None?
  {
  }

  lemma {:induction false} PlaceAllSlots<V>(rows: seq<Row<V>>, expected: nat)
    requires Acceptable(rows, expected)
    ensures Slots(rows, PlaceAll(rows, expected))
  {
    if rows == [] {
      NothingPresent(PlaceAll(rows, expected));
    } else {
      var i := |rows| - 1;
      AcceptableBefore(rows, expected, i);
      PlaceAllSlots(rows[..i], expected);
      var placed := PlaceAll(rows[..i], expected);
      SlotFree(rows, i, placed);
      PlaceRow(rows, i, placed);
      assert rows[..i + 1] == rows;
    }
  }

  ghost predicate Accepted<V>(response: Response<V>, expected: nat) {
    response.Rows? && |response.rows| == expected && Acceptable(response.rows, expected)
  }

  // What an accepted response contributes to the batch.
  function Answer<V>(response: Response<V>, expected: nat): seq<V>
    requires response.Rows? && forall i :: 0 <= i < |response.rows| ==> InRange(response.rows[i], expected)
  {
    Present(PlaceAll(response.rows, expected))
  }

  // It lines up with the snippets exactly when no row brought a null embedding.
  lemma AnswerAligned<V>(response: Response<V>, expected: nat)
    requires Accepted(response, expected)
    ensures |Answer(response, expected)| <= expected
    ensures |Answer(response, expected)| == expected <==> NoNulls(response.rows)
  {
    PlaceAllSlots(response.rows, expected);
    AllEmbeddings(response.rows);
  }

  lemma AnswerPlaced<V>(response: Response<V>, expected: nat, i: nat)
    requires Accepted(response, expected) && NoNulls(response.rows) && i < expected
    ensures |Answer(response, expected)| == expected
    ensures Answer(response, expected)[response.rows[i].index.value] == response.rows[i].embedding.value
  {
    AnswerAligned(response, expected);
    PlaceAllSlots(response.rows, expected);
    PresentFull(PlaceAll(response.rows, expected));
  }

  lemma AnswersPlaced<V>(response: Response<V>, expected: nat)
    requires Accepted(response, expected)
    ensures |Answer(response, expected)| <= expected
    ensures NoNulls(response.rows) ==> |Answer(response, expected)| == expected && forall i :: 0 <= i < expected ==>
              Answer(response, expected)[response.rows[i].index.value] == response.rows[i].embedding.value
  {
    AnswerAligned(response, expected);
    if NoNulls(response.rows) {
      forall i: nat | i < expected {
        AnswerPlaced(response, expected, i);
      }
    }
  }

  // The first i rows have been placed.
  ghost predicate Placing<V>(rows: seq<Row<V>>, i: nat, placed: seq<Option<V>>)
    requires i <= |rows|
  {
    && (forall j :: 0 <= j < i ==> InRange(rows[..i][j], |placed|))
    && placed == PlaceAll(rows[..i], |placed|) && Slots(rows[..i], placed)
  }

  lemma PlacingStep<V>(rows: seq<Row<V>>, i: nat, placed: seq<Option<V>>)
    requires i < |rows| && Placing(rows, i, placed) && InRange(rows[i], |placed|)
    requires placed[rows[i].index.value].None?
    ensures Placing(rows, i + 1, placed[rows[i].index.value := rows[i].embedding])
  {
    PlaceRow(rows, i, placed);
    var after := rows[..i + 1];
    assert after[..i] == rows[..i] && after[i] == rows[i];
    forall j | 0 <= j < i + 1 ensures InRange(after[j], |placed|) {
      assert j < i ==> after[j] == rows[..i][j];
    }
  }

  lemma PlacingEnd<V>(rows: seq<Row<V>>, placed: seq<Option<V>>)
    requires Placing(rows, |rows|, placed)
    ensures Acceptable(rows, |placed|) && placed == PlaceAll(rows, |placed|)
  {
    assert rows[..|rows|] == rows;
  }

  lemma RowRejected<V>(rows: seq<Row<V>>, i: nat, placed: seq<Option<V>>)
    requires i < |rows| && Placing(rows, i, placed)
    requires InRange(rows[i], |placed|) ==> placed[rows[i].index.value].Some?
    ensures !Acceptable(rows, |placed|)
  {
    if InRange(rows[i], |placed|) {
      var k := rows[i].index.value;
      var j :| 0 <= j < i && rows[..i][j].index == Some(k) && rows[..i][j].embedding == placed[k];
      assert rows[j].embedding.Some? && rows[j].index == rows[i].index;
    }
  }

  // Row i can be placed after the rows before it.
  ghost predicate Fits<V>(rows: seq<Row<V>>, expected: nat, i: nat)
    requires i < |rows|
  {
    && rows[i].Row? && rows[i].index.Some? && 0 <= rows[i].index.value < expected
    && forall j :: 0 <= j < i && rows[j].Row? && rows[j].embedding.Some? ==> rows[j].index != rows[i].index
  }

  // The first row that cannot be placed.
  ghost predicate FirstMisfit<V>(rows: seq<Row<V>>, expected: nat, i: nat)
    requires i < |rows|
  {
    !Fits(rows, expected, i) && forall j :: 0 <= j < i ==> Fits(rows, expected, j)
  }

  // Which error a response that is not accepted raises.
  ghost predicate FailsWith<V>(response: Response<V>, expected: nat, error: Error) {
    match response
    case HttpFailure => error == HttpError
    case NotRows => error == MalformedResponse
    case Rows(rows) =>
      if |rows| != expected then error == CountMismatch
      else exists i: nat :: i < |rows| && FirstMisfit(rows, expected, i)
                            && error == if rows[i].NotARow? then MalformedResponse else BadIndex
  }

  lemma AllFit<V>(rows: seq<Row<V>>, i: nat, placed: seq<Option<V>>)
    requires i <= |rows| && Placing(rows, i, placed)
    ensures forall j :: 0 <= j < i ==> Fits(rows, |placed|, j)
  {
    assert forall j :: 0 <= j < i ==> rows[..i][j] == rows[j];
  }

  lemma RowMisfits<V>(rows: seq<Row<V>>, i: nat, placed: seq<Option<V>>)
    requires i < |rows| && Placing(rows, i, placed)
    requires InRange(rows[i], |placed|) ==> placed[rows[i].index.value].Some?
    ensures FirstMisfit(rows, |placed|, i)
  {
    AllFit(rows, i, placed);
    if InRange(rows[i], |placed|) {
      var k := rows[i].index.value;
      var j :| 0 <= j < i && rows[..i][j].index == Some(k) && rows[..i][j].embedding == placed[k];
      assert Fits(rows, |placed|, j);
      assert rows[j].embedding.Some? && rows[j].index == rows[i].index;
    }
  }

  lemma RowFails<V>(response: Response<V>, i: nat, placed: seq<Option<V>>)
    requires response.Rows? && |response.rows| == |placed| && i < |response.rows| && Placing(response.rows, i, placed)
    requires InRange(response.rows[i], |placed|) ==> placed[response.rows[i].index.value].Some?
    ensures !Accepted(response, |placed|)
    ensures FailsWith(response, |placed|, if response.rows[i].NotARow? then MalformedResponse else BadIndex)
  {
    RowRejected(response.rows, i, placed);
    RowMisfits(response.rows, i, placed);
  }

  // _parse_embedding_rows.  Accepted exactly when the rows are acceptable and as many as the snippets; the result then
  // lines up with the snippets exactly when no row brought a null embedding.
  method ParseEmbeddingRows<V(==)>(response: Response<V>, expected: nat) returns (result: Result<seq<V>>)
    ensures result.Success? <==> Accepted(response, expected)
    ensures result.Failure? ==> FailsWith(response, expected, result.error)
    ensures result.Success? ==> result.value == Answer(response, expected)
    ensures result.Success? ==> (|result.value| == expected <==> NoNulls(response.rows))
    ensures result.Success? && NoNulls(response.rows) ==> forall i :: 0 <= i < expected ==>
              result.value[response.rows[i].index.value] == response.rows[i].embedding.value
  {
    if response.HttpFailure? {
      return Failure(HttpError);
    }
    if response.NotRows? {
      return Failure(MalformedResponse);
    }
    var rows := response.rows;
    if |rows| != expected {
      return Failure(CountMismatch);
    }
    var placed := EmptySlots<V>(expected);
    NothingPresent(placed);
    for i := 0 to |rows|
      invariant |placed| == expected && Placing(rows, i, placed)
    {
      if rows[i].NotARow? {
        RowFails(response, i, placed);
        return Failure(MalformedResponse);
      }
      if !InRange(rows[i], expected) || placed[rows[i].index.value].Some? {
        RowFails(response, i, placed);
        return Failure(BadIndex);
      }
      PlacingStep(rows, i, placed);
      placed := placed[rows[i].index.value := rows[i].embedding];
    }
    PlacingEnd(rows, placed);
    AnswerAligned(response, expected);
    AnswersPlaced(response, expected);
    return Success(Present(placed));
  }

  // ----- a batch in chunks -----

  // The n-th request of a batch, with its snippets.
  type Server<!V> = (nat, seq<string>) -> Response<V>

  // The model over the snippets, one by one.
  function Mapped<V>(model: string -> V, snippets: seq<string>): (mapped: seq<V>)
    ensures |mapped| == |snippets|
  {
    seq(|snippets|, i requires 0 <= i < |snippets| => model(snippets[i]))
  }

  // Every embedding of a response is the model's for the snippet at its index.
  ghost predicate Truthful<V>(response: Response<V>, model: string -> V, batch: seq<string>) {
    response.Rows? ==>
      forall i :: 0 <= i < |response.rows|
                  && InRange(response.rows[i], |batch|) && response.rows[i].embedding.Some?
                  ==> response.rows[i].embedding.value == model(batch[response.rows[i].index.value])
  }

  // An accepted response without nulls is the model over the batch, in whatever order its rows came.
  lemma AcceptedIsMapped<V>(response: Response<V>, model: string -> V, batch: seq<string>)
    requires Accepted(response, |batch|) && Truthful(response, model, batch) && NoNulls(response.rows)
    ensures Answer(response, |batch|) == Mapped(model, batch)
  {
    var rows, placed := response.rows, PlaceAll(response.rows, |batch|);
    PlaceAllSlots(rows, |batch|);
    AllEmbeddings(rows);
    PresentFull(placed);
    forall k | 0 <= k < |batch| ensures Present(placed)[k] == model(batch[k]) {
      assert placed[k].Some?;
      var i :| 0 <= i < |rows| && rows[i].index == Some(k) && rows[i].embedding == placed[k];
    }
  }

  lemma MappedAppend<V>(model: string -> V, a: seq<string>, b: seq<string>)
    ensures Mapped(model, a + b) == Mapped(model, a) + Mapped(model, b)
  {
  }

  // Every request for the snippets, from the n-th on, is answered acceptably.
  ghost predicate AllAccepted<V>(server: Server<V>, n: nat, snippets: seq<string>, batchSize: nat)
    requires batchSize > 0
    decreases |snippets|
  {
    if |snippets| <= batchSize then snippets == [] || Accepted(server(n, snippets), |snippets|)
    else Accepted(server(n, snippets[..batchSize]), batchSize)
         && AllAccepted(server, n + 1, snippets[batchSize..], batchSize)
  }

  // No response to these requests has a null embedding.
  ghost predicate AllPresent<V>(server: Server<V>, n: nat, snippets: seq<string>, batchSize: nat)
    requires batchSize > 0 && AllAccepted(server, n, snippets, batchSize)
    decreases |snippets|
  {
    if |snippets| <= batchSize then snippets == [] || NoNulls(server(n, snippets).rows)
    else NoNulls(server(n, snippets[..batchSize]).rows)
         && AllPresent(server, n + 1, snippets[batchSize..], batchSize)
  }

  // The embeddings in these responses are the model's.
  ghost predicate AllTruthful<V>(server: Server<V>, model: string -> V, n: nat, snippets: seq<string>, batchSize: nat)
    requires batchSize > 0
    decreases |snippets|
  {
    if |snippets| <= batchSize then snippets == [] || Truthful(server(n, snippets), model, snippets)
    else Truthful(server(n, snippets[..batchSize]), model, snippets[..batchSize])
         && AllTruthful(server, model, n + 1, snippets[batchSize..], batchSize)
  }

  // What the responses contribute, one after the other.
  function Answers<V>(server: Server<V>, n: nat, snippets: seq<string>, batchSize: nat): seq<V>
    requires batchSize > 0 && AllAccepted(server, n, snippets, batchSize)
    decreases |snippets|
  {
    if snippets == [] then []
    else if |snippets| <= batchSize then Answer(server(n, snippets), |snippets|)
    else Answer(server(n, snippets[..batchSize]), batchSize) + Answers(server, n + 1, snippets[batchSize..], batchSize)
  }

  // There is one answer for each snippet exactly when there is no null; otherwise there are fewer.
  lemma {:induction false} AnswersAligned<V>(server: Server<V>, n: nat, snippets: seq<string>, batchSize: nat)
    requires batchSize > 0 && AllAccepted(server, n, snippets, batchSize)
    ensures |Answers(server, n, snippets, batchSize)| <= |snippets|
    ensures |Answers(server, n, snippets, batchSize)| == |snippets| <==> AllPresent(server, n, snippets, batchSize)
    decreases |snippets|
  {
    if snippets != [] {
      var chunk := if |snippets| <= batchSize then snippets else snippets[..batchSize];
      AnswerAligned(server(n, chunk), |chunk|);
      if |snippets| > batchSize {
        AnswersAligned(server, n + 1, snippets[batchSize..], batchSize);
      }
    }
  }

  // Then they are the model over the snippets one by one.
  lemma {:induction false} AnswersAreMapped<V>(server: Server<V>, model: string -> V, n: nat, snippets: seq<string>,
                                               batchSize: nat)
    requires batchSize > 0 && AllAccepted(server, n, snippets, batchSize)
    requires AllPresent(server, n, snippets, batchSize) && AllTruthful(server, model, n, snippets, batchSize)
    ensures Answers(server, n, snippets, batchSize) == Mapped(model, snippets)
    decreases |snippets|
  {
    if snippets == [] {
    } else if |snippets| <= batchSize {
      AcceptedIsMapped(server(n, snippets), model, snippets);
    } else {
      var chunk, rest := snippets[..batchSize], snippets[batchSize..];
      AcceptedIsMapped(server(n, chunk), model, chunk);
      AnswersAreMapped(server, model, n + 1, rest, batchSize);
      MappedAppend(model, chunk, rest);
      assert snippets == chunk + rest;
    }
  }

  lemma Chunk<T>(snippets: seq<T>, start: nat, end: nat, batchSize: nat)
    requires batchSize > 0 && start < |snippets|
    requires end == if start + batchSize <= |snippets| then start + batchSize else |snippets|
    ensures var rest := snippets[start..];
            && rest != [] && |rest| == |snippets| - start
            && (if |rest| <= batchSize then snippets[start..end] == rest && snippets[end..] == []
                else snippets[start..end] == rest[..batchSize] && snippets[end..] == rest[batchSize..])
  {
  }

  lemma NextRequest<V>(server: Server<V>, n: nat, snippets: seq<string>, start: nat, end: nat, batchSize: nat)
    requires batchSize > 0 && start < |snippets|
    requires end == if start + batchSize <= |snippets| then start + batchSize else |snippets|
    ensures AllAccepted(server, n, snippets[start..], batchSize) <==>
            Accepted(server(n, snippets[start..end]), end - start)
            && AllAccepted(server, n + 1, snippets[end..], batchSize)
    ensures AllAccepted(server, n, snippets[start..], batchSize) ==>
              Answers(server, n, snippets[start..], batchSize)
              == Answer(server(n, snippets[start..end]), end - start)
                 + Answers(server, n + 1, snippets[end..], batchSize)
  {
    Chunk(snippets, start, end, batchSize);
  }

  // Between two requests: n of them have brought `embeddings` for the first `start` snippets.
  ghost predicate Midway<V>(server: Server<V>, snippets: seq<string>, batchSize: nat, n: nat, start: nat,
                            embeddings: seq<V>)
    requires batchSize > 0 && start <= |snippets|
  {
    && (AllAccepted(server, 0, snippets, batchSize) <==> AllAccepted(server, n, snippets[start..], batchSize))
    && (AllAccepted(server, 0, snippets, batchSize) ==>
          Answers(server, 0, snippets, batchSize) == embeddings + Answers(server, n, snippets[start..], batchSize))
  }

  lemma MidwayStep<V>(server: Server<V>, snippets: seq<string>, batchSize: nat, n: nat, start: nat, end: nat,
                      embeddings: seq<V>, answer: seq<V>)
    requires batchSize > 0 && start < |snippets| && Midway(server, snippets, batchSize, n, start, embeddings)
    requires end == if start + batchSize <= |snippets| then start + batchSize else |snippets|
    requires Accepted(server(n, snippets[start..end]), end - start)
    requires answer == Answer(server(n, snippets[start..end]), end - start)
    ensures Midway(server, snippets, batchSize, n + 1, end, embeddings + answer)
  {
    NextRequest(server, n, snippets, start, end, batchSize);
    if AllAccepted(server, 0, snippets, batchSize) {
      var rest := Answers(server, n + 1, snippets[end..], batchSize);
      assert embeddings + (answer + rest) == embeddings + answer + rest;
    }
  }

  lemma MidwayStops<V>(server: Server<V>, snippets: seq<string>, batchSize: nat, n: nat, start: nat, end: nat,
                       embeddings: seq<V>)
    requires batchSize > 0 && start < |snippets| && Midway(server, snippets, batchSize, n, start, embeddings)
    requires end == if start + batchSize <= |snippets| then start + batchSize else |snippets|
    requires !Accepted(server(n, snippets[start..end]), end - start)
    ensures !AllAccepted(server, 0, snippets, batchSize)
  {
    NextRequest(server, n, snippets, start, end, batchSize);
  }

  lemma MidwayStart<V>(server: Server<V>, snippets: seq<string>, batchSize: nat)
    requires batchSize > 0
    ensures Midway(server, snippets, batchSize, 0, 0, [])
  {
    assert snippets[0..] == snippets;
  }

  lemma MidwayEnd<V>(server: Server<V>, snippets: seq<string>, batchSize: nat, n: nat, embeddings: seq<V>)
    requires batchSize > 0 && Midway(server, snippets, batchSize, n, |snippets|, embeddings)
    ensures AllAccepted(server, 0, snippets, batchSize) && embeddings == Answers(server, 0, snippets, batchSize)
  {
  }

  // The error of the first response that is not accepted.
  ghost predicate BatchFailsWith<V>(server: Server<V>, n: nat, snippets: seq<string>, batchSize: nat, error: Error)
    requires batchSize > 0
    decreases |snippets|
  {
    && snippets != []
    && var chunk := if |snippets| <= batchSize then snippets else snippets[..batchSize];
       if Accepted(server(n, chunk), |chunk|)
         then |snippets| > batchSize && BatchFailsWith(server, n + 1, snippets[batchSize..], batchSize, error)
         else FailsWith(server(n, chunk), |chunk|, error)
  }

  lemma NextFailure<V>(server: Server<V>, n: nat, snippets: seq<string>, start: nat, end: nat, batchSize: nat,
                       error: Error)
    requires batchSize > 0 && start < |snippets|
    requires end == if start + batchSize <= |snippets| then start + batchSize else |snippets|
    ensures BatchFailsWith(server, n, snippets[start..], batchSize, error) <==>
            if Accepted(server(n, snippets[start..end]), end - start)
              then BatchFailsWith(server, n + 1, snippets[end..], batchSize, error)
              else FailsWith(server(n, snippets[start..end]), end - start, error)
  {
    Chunk(snippets, start, end, batchSize);
  }

  // What fails the rest of the batch fails the batch.
  ghost predicate FailureKept<V>(server: Server<V>, snippets: seq<string>, batchSize: nat, n: nat, start: nat)
    requires batchSize > 0 && start <= |snippets|
  {
    forall error :: BatchFailsWith(server, n, snippets[start..], batchSize, error) ==>
      BatchFailsWith(server, 0, snippets, batchSize, error)
  }

  lemma FailureStep<V>(server: Server<V>, snippets: seq<string>, batchSize: nat, n: nat, start: nat, end: nat)
    requires batchSize > 0 && start < |snippets| && FailureKept(server, snippets, batchSize, n, start)
    requires end == if start + batchSize <= |snippets| then start + batchSize else |snippets|
    requires Accepted(server(n, snippets[start..end]), end - start)
    ensures FailureKept(server, snippets, batchSize, n + 1, end)
  {
    forall error {
      NextFailure(server, n, snippets, start, end, batchSize, error);
    }
  }

  // The batch fails only when the server fails it, and otherwise has what the responses contribute.
  method OpenaiEmbedBatch<V(==)>(server: Server<V>, snippets: seq<string>, batchSize: nat)
    returns (result: Result<seq<V>>)
    requires batchSize > 0
    ensures result.Success? <==> AllAccepted(server, 0, snippets, batchSize)
    ensures result.Success? ==> result.value == Answers(server, 0, snippets, batchSize)
    ensures result.Failure? ==> BatchFailsWith(server, 0, snippets, batchSize, result.error)
  {
    var embeddings: seq<V>, start, n := [], 0, 0;
    MidwayStart(server, snippets, batchSize);
    assert snippets[0..] == snippets;
    while start < |snippets|
      invariant start <= |snippets| && Midway(server, snippets, batchSize, n, start, embeddings)
      invariant FailureKept(server, snippets, batchSize, n, start)
      decreases |snippets| - start
    {
      var end := if start + batchSize <= |snippets| then start + batchSize else |snippets|;
      var chunk := ParseEmbeddingRows(server(n, snippets[start..end]), end - start);
      if chunk.Failure? {
        MidwayStops(server, snippets, batchSize, n, start, end, embeddings);
        NextFailure(server, n, snippets, start, end, batchSize, chunk.error);
        return Failure(chunk.error);
      }
      MidwayStep(server, snippets, batchSize, n, start, end, embeddings, chunk.value);
      FailureStep(server, snippets, batchSize, n, start, end);
      embeddings, start, n := embeddings + chunk.value, end, n + 1;
    }
    MidwayEnd(server, snippets, batchSize, n, embeddings);
    return Success(embeddings);
  }

  // ----- the cache -----

  // zip stops at the shorter list.
  function PutAll<V>(cache: map<string, V>, snippets: seq<string>, embeddings: seq<V>): map<string, V>
    decreases |snippets|
  {
    if snippets == [] || embeddings == [] then cache
    else PutAll(cache[snippets[0] := embeddings[0]], snippets[1..], embeddings[1..])
  }

  // Pair i is the last one for its snippet.
  ghost predicate LastPair(snippets: seq<string>, n: nat, i: nat)
    requires n <= |snippets|
  {
    i < n && forall j :: i < j < n ==> snippets[j] != snippets[i]
  }

  // As many pairs as the shorter list has are stored; of several for one snippet the last one stays, and nothing else
  // changes.
  ghost predicate Paired<V>(before: map<string, V>, snippets: seq<string>, embeddings: seq<V>, after: map<string, V>) {
    var n := if |snippets| <= |embeddings| then |snippets| else |embeddings|;
    && (forall i :: 0 <= i < n && LastPair(snippets, n, i) ==>
          snippets[i] in after && after[snippets[i]] == embeddings[i])
    && (forall key :: key !in snippets[..n] ==>
          (key in after <==> key in before) && (key in after ==> after[key] == before[key]))
  }

  lemma {:induction false} PutAllOther<V>(cache: map<string, V>, snippets: seq<string>, embeddings: seq<V>, key: string)
    requires forall i :: 0 <= i < |snippets| && i < |embeddings| ==> snippets[i] != key
    ensures var after := PutAll(cache, snippets, embeddings);
            (key in after <==> key in cache) && (key in after ==> after[key] == cache[key])
    decreases |snippets|
  {
    if snippets != [] && embeddings != [] {
      PutAllOther(cache[snippets[0] := embeddings[0]], snippets[1..], embeddings[1..], key);
    }
  }

  lemma {:induction false} PutAllLast<V>(cache: map<string, V>, snippets: seq<string>, embeddings: seq<V>, i: nat)
    requires i < |snippets| && i < |embeddings|
    requires forall j :: i < j < |snippets| && j < |embeddings| ==> snippets[j] != snippets[i]
    ensures var after := PutAll(cache, snippets, embeddings);
            snippets[i] in after && after[snippets[i]] == embeddings[i]
    decreases |snippets|
  {
    var rest, others, first := snippets[1..], embeddings[1..], cache[snippets[0] := embeddings[0]];
    assert forall j :: 0 <= j < |rest| ==> rest[j] == snippets[j + 1];
    if i > 0 {
      PutAllLast(first, rest, others, i - 1);
    } else {
      PutAllOther(first, rest, others, snippets[0]);
    }
  }

  lemma PutAllPairs<V>(cache: map<string, V>, snippets: seq<string>, embeddings: seq<V>)
    ensures Paired(cache, snippets, embeddings, PutAll(cache, snippets, embeddings))
  {
    var n := if |snippets| <= |embeddings| then |snippets| else |embeddings|;
    forall i: nat | i < n && LastPair(snippets, n, i)
      ensures var after := PutAll(cache, snippets, embeddings);
              snippets[i] in after && after[snippets[i]] == embeddings[i]
    {
      PutAllLast(cache, snippets, embeddings, i);
    }
    forall key | key !in snippets[..n]
      ensures var after := PutAll(cache, snippets, embeddings);
              (key in after <==> key in cache) && (key in after ==> after[key] == cache[key])
    {
      forall i | 0 <= i < n ensures snippets[i] != key {
        assert snippets[..n][i] == snippets[i];
      }
      PutAllOther(cache, snippets, embeddings, key);
    }
  }

  ghost predicate Coherent<V>(cache: map<string, V>, model: string -> V) {
    forall snippet :: snippet in cache ==> cache[snippet] == model(snippet)
  }

  lemma {:induction false} PutAllCoherent<V>(cache: map<string, V>, model: string -> V, snippets: seq<string>)
    requires Coherent(cache, model)
    ensures Coherent(PutAll(cache, snippets, Mapped(model, snippets)), model)
    decreases |snippets|
  {
    if snippets != [] {
      assert Mapped(model, snippets)[1..] == Mapped(model, snippets[1..]);
      PutAllCoherent(cache[snippets[0] := model(snippets[0])], model, snippets[1..]);
    }
  }

  // With a null the response is accepted all the same, and the cache pairs the first snippet with the second one's
  // embedding.
  lemma NullPoisonsCache<V>(a: string, b: string, v: V)
    requires a != b
    ensures var rows := [Row(Some(0), None), Row(Some(1), Some(v))];
            && Acceptable(rows, 2) && Slots(rows, [None, Some(v)])
            && PutAll(map[], [a, b], Present([None, Some(v)])) == map[a := v]
  {
    var rows: seq<Row<V>> := [Row(Some(0), None), Row(Some(1), Some(v))];
    var placed: seq<Option<V>> := [None, Some(v)];
    assert placed[1..] == [Some(v)] && placed[1..][1..] == [];
    assert Present(placed) == [v];
    assert rows[..1] == [rows[0]] && rows[..1][..0] == [];
    assert rows[1].index == Some(1) && rows[1].embedding == placed[1];
    assert [v][1..] == [];
    assert Embeddings(rows[..1]) == 0;
  }

  class EmbeddingCache<V(==)> {
    var cache: map<string, V>

    constructor ()
      ensures cache == map[]
    {
      cache := map[];
    }

    method GetMany(snippets: seq<string>) returns (results: map<nat, V>)
      ensures forall i: nat :: i in results <==> i < |snippets| && snippets[i] in cache
      ensures forall i: nat :: i in results ==> results[i] == cache[snippets[i]]
    {
      results := map[];
      for i := 0 to |snippets|
        invariant forall k: nat :: k in results <==> k < i && snippets[k] in cache
        invariant forall k: nat :: k in results ==> results[k] == cache[snippets[k]]
      {
        if snippets[i] in cache {
          results := results[i := cache[snippets[i]]];
        }
      }
    }

    method PutMany(snippets: seq<string>, embeddings: seq<V>)
      modifies this
      ensures cache == PutAll(old(cache), snippets, embeddings) && Paired(old(cache), snippets, embeddings, cache)
    {
      PutAllPairs(cache, snippets, embeddings);
      var i := 0;
      while i < |snippets| && i < |embeddings|
        invariant i <= |snippets| && i <= |embeddings|
        invariant PutAll(cache, snippets[i..], embeddings[i..]) == PutAll(old(cache), snippets, embeddings)
      {
        cache := cache[snippets[i] := embeddings[i]];
        assert snippets[i..][1..] == snippets[i + 1..] && embeddings[i..][1..] == embeddings[i + 1..];
        i := i + 1;
      }
    }
  }

  // The positions not answered by the cache, ascending.
  function Uncached<V>(cached: map<nat, V>, n: nat): (indices: seq<nat>)
    ensures forall k: nat :: k in indices <==> k < n && k !in cached
    ensures forall j :: 0 <= j < |indices| ==> indices[j] < n
  {
    if n == 0 then [] else Uncached(cached, n - 1) + if n - 1 in cached then [] else [n - 1]
  }

  // [[]] * n with the cached answers at their positions.
  method PlaceCached<V>(cached: map<nat, V>, n: nat) returns (slots: seq<Option<V>>)
    requires forall i :: i in cached ==> i < n
    ensures |slots| == n && forall i :: 0 <= i < n && i in cached ==> slots[i] == Some(cached[i])
  {
    slots := EmptySlots<V>(n);
    var keys := cached.Keys;
    while keys != {}
      invariant |slots| == n && keys <= cached.Keys
      invariant forall i :: 0 <= i < n && i in cached && i !in keys ==> slots[i] == Some(cached[i])
    {
      var i :| i in keys;
      slots, keys := slots[i := Some(cached[i])], keys - {i};
    }
  }

  // Cached answers at their positions, new ones at the positions in `indices`.
  method Assemble<V>(cached: map<nat, V>, indices: seq<nat>, answers: seq<V>, n: nat) returns (results: seq<V>)
    requires indices == Uncached(cached, n) && |answers| >= |indices| && forall i :: i in cached ==> i < n
    ensures |results| == n
    ensures forall i :: 0 <= i < n && i in cached ==> results[i] == cached[i]
    ensures forall j :: 0 <= j < |indices| ==> results[indices[j]] == answers[j]
  {
    var slots := PlaceCached(cached, n);
    UncachedDistinct(cached, n);
    for j := 0 to |indices|
      invariant |slots| == n
      invariant forall i :: 0 <= i < n && i in cached ==> slots[i] == Some(cached[i])
      invariant forall k :: 0 <= k < j ==> slots[indices[k]] == Some(answers[k])
    {
      assert indices[j] in indices;
      slots := slots[indices[j] := Some(answers[j])];
    }
    forall i: nat | i < n ensures slots[i].Some? {
      if i !in cached {
        assert i in indices;
      }
    }
    results := seq(n, i requires 0 <= i < n && n == |slots| && slots[i].Some? => slots[i].value);
  }

  lemma {:induction false} UncachedDistinct<V>(cached: map<nat, V>, n: nat)
    ensures NoDuplicates(Uncached(cached, n))
  {
    if n > 0 {
      UncachedDistinct(cached, n - 1);
    }
  }

  function SnippetsAt(snippets: seq<string>, indices: seq<nat>): (picked: seq<string>)
    requires forall j :: 0 <= j < |indices| ==> indices[j] < |snippets|
    ensures |picked| == |indices| && forall j :: 0 <= j < |indices| ==> picked[j] == snippets[indices[j]]
  {
    seq(|indices|, j requires 0 <= j < |indices| => snippets[indices[j]])
  }

  // The snippets the cache does not answer, in order.
  function MissingFrom<V>(cache: map<string, V>, snippets: seq<string>): seq<string> {
    if snippets == [] then []
    else
      var last := |snippets| - 1;
      MissingFrom(cache, snippets[..last]) + if snippets[last] in cache then [] else [snippets[last]]
  }

  lemma {:induction false} MissingPicked<V>(cache: map<string, V>, cached: map<nat, V>, snippets: seq<string>, n: nat)
    requires n <= |snippets| && forall i: nat :: i in cached <==> i < |snippets| && snippets[i] in cache
    ensures SnippetsAt(snippets, Uncached(cached, n)) == MissingFrom(cache, snippets[..n])
  {
    if n > 0 {
      MissingPicked(cache, cached, snippets, n - 1);
      assert snippets[..n][..n - 1] == snippets[..n - 1];
    }
  }

  // Snippet i has the cached answer, or the answer to its place among the missing snippets.
  ghost predicate Answered<V>(cache: map<string, V>, snippets: seq<string>, answers: seq<V>, i: nat, v: V)
    requires i < |snippets|
  {
    if snippets[i] in cache then v == cache[snippets[i]]
    else
      var place := |MissingFrom(cache, snippets[..i])|;
      place < |answers| && v == answers[place]
  }

  lemma {:induction false} UncachedAt<V>(cached: map<nat, V>, n: nat, i: nat)
    requires i < n && i !in cached
    ensures |Uncached(cached, i)| < |Uncached(cached, n)| && Uncached(cached, n)[|Uncached(cached, i)|] == i
  {
    var shorter := Uncached(cached, n - 1);
    LastAdded(shorter, n - 1);
    if i < n - 1 {
      UncachedAt(cached, n - 1, i);
      assert Uncached(cached, n) == shorter + [] || Uncached(cached, n) == shorter + [n - 1];
    }
  }

  lemma LastAdded(xs: seq<nat>, x: nat)
    ensures (xs + [x])[|xs|] == x && xs + [] == xs && forall j :: 0 <= j < |xs| ==> (xs + [x])[j] == xs[j]
  {
  }

  lemma AssembledAnswers<V>(cache: map<string, V>, cached: map<nat, V>, snippets: seq<string>, answers: seq<V>,
                            results: seq<V>)
    requires |results| == |snippets| && |answers| >= |Uncached(cached, |snippets|)|
    requires forall i: nat :: i in cached <==> i < |snippets| && snippets[i] in cache
    requires forall i: nat :: i in cached ==> cached[i] == cache[snippets[i]]
    requires forall i :: 0 <= i < |results| && i in cached ==> results[i] == cached[i]
    requires forall j :: 0 <= j < |Uncached(cached, |snippets|)| ==>
               results[Uncached(cached, |snippets|)[j]] == answers[j]
    ensures forall i :: 0 <= i < |snippets| ==> Answered(cache, snippets, answers, i, results[i])
  {
    forall i: nat | i < |snippets| ensures Answered(cache, snippets, answers, i, results[i]) {
      if i !in cached {
        UncachedAt(cached, |snippets|, i);
        MissingPicked(cache, cached, snippets, i);
      }
    }
  }

  lemma AssembledIsMapped<V>(model: string -> V, snippets: seq<string>, cached: map<nat, V>, results: seq<V>)
    requires |results| == |snippets|
    requires forall i: nat :: i in cached ==> i < |snippets| && cached[i] == model(snippets[i])
    requires forall i :: 0 <= i < |results| && i in cached ==> results[i] == cached[i]
    requires forall j :: 0 <= j < |Uncached(cached, |snippets|)| ==>
               results[Uncached(cached, |snippets|)[j]] == model(snippets[Uncached(cached, |snippets|)[j]])
    ensures results == Mapped(model, snippets)
  {
    forall i: nat | i < |snippets| ensures results[i] == model(snippets[i]) {
      if i !in cached {
        assert i in Uncached(cached, |snippets|);
      }
    }
  }

  // The model's answers are stored as such.
  lemma MappedEnds<V>(cache: map<string, V>, server: Server<V>, model: string -> V, missing: seq<string>,
                      batchSize: nat)
    requires batchSize > 0 && AllAccepted(server, 0, missing, batchSize)
    ensures AllPresent(server, 0, missing, batchSize) && AllTruthful(server, model, 0, missing, batchSize) ==>
              Answers(server, 0, missing, batchSize) == Mapped(model, missing)
    ensures Coherent(cache, model) ==> Coherent(PutAll(cache, missing, Mapped(model, missing)), model)
  {
    if AllPresent(server, 0, missing, batchSize) && AllTruthful(server, model, 0, missing, batchSize) {
      AnswersAreMapped(server, model, 0, missing, batchSize);
    }
    if Coherent(cache, model) {
      PutAllCoherent(cache, model, missing);
    }
  }

  // embed_code_batch.  Only the server can fail the batch, which leaves the cache untouched.  Otherwise its answers for
  // the missing snippets are stored, in the order they came; with a null among them they are too few, and the call ends
  // in an index error.  With none, and if they are the model's, the result is the model over the snippets whatever was
  // cached, and the cache stays coherent.
  method EmbedCodeBatch<V(==)>(cache: EmbeddingCache<V>, server: Server<V>, snippets: seq<string>, batchSize: nat,
                               ghost model: string -> V)
    returns (result: Result<seq<V>>)
    requires batchSize > 0
    modifies cache
    ensures var missing := MissingFrom(old(cache.cache), snippets);
            if AllAccepted(server, 0, missing, batchSize) then
              && cache.cache == PutAll(old(cache.cache), missing, Answers(server, 0, missing, batchSize))
              && Paired(old(cache.cache), missing, Answers(server, 0, missing, batchSize), cache.cache)
              && (result == Failure(IndexError) <==> !AllPresent(server, 0, missing, batchSize))
              && (result.Success? <==> AllPresent(server, 0, missing, batchSize))
            else
              && result.Failure? && BatchFailsWith(server, 0, missing, batchSize, result.error)
              && cache.cache == old(cache.cache)
    ensures result.Success? ==> |result.value| == |snippets|
    ensures var missing := MissingFrom(old(cache.cache), snippets);
            result.Success? ==> AllAccepted(server, 0, missing, batchSize) && forall i :: 0 <= i < |snippets| ==>
              Answered(old(cache.cache), snippets, Answers(server, 0, missing, batchSize), i, result.value[i])
    ensures result.Success? && old(Coherent(cache.cache, model))
            && AllTruthful(server, model, 0, MissingFrom(old(cache.cache), snippets), batchSize) ==>
              Coherent(cache.cache, model) && result.value == Mapped(model, snippets)
  {
    if snippets == [] {
      return Success([]);
    }
    var cached := cache.GetMany(snippets);
    var indices := Uncached(cached, |snippets|);
    MissingPicked(cache.cache, cached, snippets, |snippets|);
    assert snippets[..|snippets|] == snippets;
    var missing := SnippetsAt(snippets, indices);
    if indices == [] {
      forall i: nat | i < |snippets| ensures i in cached {
        assert i !in indices;
      }
      return Success(seq(|snippets|, i requires 0 <= i < |snippets| && i in cached => cached[i]));
    }
    var embedded := OpenaiEmbedBatch(server, missing, batchSize);
    if embedded.Failure? {
      return Failure(embedded.error);
    }
    AnswersAligned(server, 0, missing, batchSize);
    MappedEnds(cache.cache, server, model, missing, batchSize);
    cache.PutMany(missing, embedded.value);
    if |embedded.value| < |missing| {
      return Failure(IndexError);
    }
    var results := Assemble(cached, indices, embedded.value, |snippets|);
    AssembledAnswers(old(cache.cache), cached, snippets, embedded.value, results);
    if old(Coherent(cache.cache, model)) && embedded.value == Mapped(model, missing) {
      AssembledIsMapped(model, snippets, cached, results);
    }
    return Success(results);
  }
}
