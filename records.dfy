/**
 * The shape of the JUFO REST payloads as js/jufo.js reads them: records
 * (rows) whose fields are looked up through lists of alias names, and the
 * three places a list of rows can come from (a bare array, `results` or
 * `result`).
 */
module Records {
  import opened JsText

  /** A field value: JSON `null`, or a scalar rendered as `String(value)` would render it. */
  datatype Scalar = Null | Text(s: string)

  /** A record; a name that is not in the map reads as `undefined`. */
  type Row = map<string, Scalar>

  /** A property that may hold the row list: falsy, an array of rows, or something truthy that is not an array. */
  datatype Slot = Falsy | Rows(rows: seq<Row>) | NotArray

  /** A parsed response: `null` (transport or parse failure), a bare array, or an object. */
  datatype Payload = NullPayload | Array(items: seq<Row>) | Object(results: Slot, result: Slot)

  /**
   * `Array.isArray(p) ? p : (p?.results || p?.result || [])`, with a
   * non-array outcome read as the empty list (both make the caller return
   * null). An empty `results` array is truthy, so `result` is then not read.
   */
  function RowList(p: Payload): (rows: seq<Row>)
    ensures p.Array? ==> rows == p.items
    ensures p.Object? && p.results.Rows? ==> rows == p.results.rows
    ensures p.Object? && p.results.Falsy? && p.result.Rows? ==> rows == p.result.rows
    ensures rows != [] ==> p.Array? || (p.Object? && (p.results.Rows? || (p.results.Falsy? && p.result.Rows?)))
  {
    match p
    case NullPayload => []
    case Array(items) => items
    case Object(results, result) =>
      match (if results.Falsy? then result else results)
      case Rows(rows) => rows
      case _ => []
  }

  /** The row holds a non-null value under `name`. */
  predicate Defined(row: Row, name: string) { name in row && row[name].Text? }

  /** The row holds a truthy (non-empty) value under `name`. */
  predicate Truthy(row: Row, name: string) { Defined(row, name) && row[name].s != "" }

  /**
   * `String(row?.a ?? row?.b ?? ... || "")`: the text of the first alias
   * that is neither missing nor null, or the empty string.
   */
  function DefinedText(row: Row, names: seq<string>): (r: string)
    ensures r != "" ==> exists i :: 0 <= i < |names| && Defined(row, names[i]) && row[names[i]].s == r
  {
    if names == [] then ""
    else if Defined(row, names[0]) then row[names[0]].s
    else
      var r := DefinedText(row, names[1..]);
      assert r != "" ==> exists i :: 0 <= i < |names| && Defined(row, names[i]) && row[names[i]].s == r by {
        if r != "" {
          var i :| 0 <= i < |names[1..]| && Defined(row, names[1..][i]) && row[names[1..][i]].s == r;
          assert names[i + 1] == names[1..][i];
        }
      }
      r
  }

  /** `??` stops at the first alias that is present, even when its text is empty. */
  lemma {:induction false} DefinedTextIsFirstDefined(row: Row, names: seq<string>, i: nat)
    requires i < |names| && Defined(row, names[i])
    requires forall k :: 0 <= k < i ==> !Defined(row, names[k])
    ensures DefinedText(row, names) == row[names[i]].s
  {
    if i > 0 {
      DefinedTextIsFirstDefined(row, names[1..], i - 1);
    }
  }

  /** `String(row.a || row.b || ... || "")`: the first non-empty alias text, or the empty string. */
  function TruthyText(row: Row, names: seq<string>): (r: string)
    ensures r == "" <==> forall i :: 0 <= i < |names| ==> !Truthy(row, names[i])
  {
    if names == [] then ""
    else if Truthy(row, names[0]) then row[names[0]].s
    else
      var r := TruthyText(row, names[1..]);
      assert (forall i :: 0 <= i < |names[1..]| ==> !Truthy(row, names[1..][i]))
        ==> forall i :: 0 <= i < |names| ==> !Truthy(row, names[i]) by {
        forall i | 0 <= i < |names| && i > 0 ensures names[i] == names[1..][i - 1] { }
      }
      r
  }

  /** `||` skips missing, null and empty aliases and stops at the first non-empty one. */
  lemma {:induction false} TruthyTextIsFirstTruthy(row: Row, names: seq<string>, i: nat)
    requires i < |names| && Truthy(row, names[i])
    requires forall k :: 0 <= k < i ==> !Truthy(row, names[k])
    ensures TruthyText(row, names) == row[names[i]].s
  {
    if i > 0 {
      TruthyTextIsFirstTruthy(row, names[1..], i - 1);
    }
  }
}
