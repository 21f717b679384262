/**
 * `QueryManager.execute_custom_query`: hands the query text and parameters
 * to the storage collaborator and wraps what comes back in a result
 * envelope whose metadata is derived from the returned rows.
 */
module Queries {
  import opened Wrappers

  /** A returned table: its column names, in order, and its rows. */
  datatype Frame<Row> = Frame(columns: seq<string>, rows: seq<Row>)

  /** What the storage collaborator does with a query: return a table or raise. */
  datatype ExecOutcome<Row> = Returned(frame: Frame<Row>) | Raised(cause: string)

  /** The `metadata` mapping: `row_count` and `columns`. */
  datatype Metadata = Metadata(rowCount: nat, columns: seq<string>)

  /** `QueryResult(data, metadata)`. */
  datatype QueryResult<Row> = QueryResult(data: Frame<Row>, metadata: Metadata)

  /** `QueryExecutionError`, carrying its message. */
  datatype QueryExecutionError = QueryExecutionError(message: string)

  const FailurePrefix: string := "Custom query failed: "

  /** The metadata reports the frame's own row count and column names. */
  predicate Describes<Row>(m: Metadata, f: Frame<Row>) {
    m.rowCount == |f.rows| && m.columns == f.columns
  }

  /**
   * Executes `query` with `params` through `execute`. On success the data is
   * the returned frame unchanged and the metadata describes that frame (not
   * the requested columns); any failure becomes a `QueryExecutionError`
   * that carries the cause, with no partial result.
   */
  function ExecuteCustomQuery<P, Row>(
    execute: (string, seq<P>) -> ExecOutcome<Row>, query: string, params: seq<P>
  ): (r: Result<QueryResult<Row>, QueryExecutionError>)
    ensures r.Success? <==> execute(query, params).Returned?
    ensures r.Success? ==>
      && r.value.data == execute(query, params).frame
      && Describes(r.value.metadata, r.value.data)
    ensures r.Failure? ==> r.error.message == FailurePrefix + execute(query, params).cause
  {
    match execute(query, params)
    case Returned(frame) => Success(QueryResult(frame, Metadata(|frame.rows|, frame.columns)))
    case Raised(cause) => Failure(QueryExecutionError(FailurePrefix + cause))
  }

  /**
   * The envelope depends only on what the executor returned: two executors
   * that return the same frame, for whatever queries, give the same result.
   */
  lemma EnvelopeDependsOnlyOnReturnedFrame<P, Row>(
    e1: (string, seq<P>) -> ExecOutcome<Row>, q1: string, p1: seq<P>,
    e2: (string, seq<P>) -> ExecOutcome<Row>, q2: string, p2: seq<P>)
    requires e1(q1, p1).Returned? && e1(q1, p1) == e2(q2, p2)
    ensures ExecuteCustomQuery(e1, q1, p1) == ExecuteCustomQuery(e2, q2, p2)
    ensures ExecuteCustomQuery(e1, q1, p1).value.metadata.columns == e1(q1, p1).frame.columns
  {
  }
}
