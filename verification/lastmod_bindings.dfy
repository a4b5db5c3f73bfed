/** `URIRDFStore._convert_result_to_datetime` (pyrdfstore/store.py): the rows of
    the registry query, each binding a named graph `path` to a `time` text, are
    folded into a dictionary from path to parsed time. The query itself is
    network I/O and is not modelled; the time parse (`datetime.strptime` with
    `%Y-%m-%dT%H:%M:%S.%fZ`) is the abstract parameter `parse`. */
module LastmodBindings {
  import opened Outcome

  /** One result row: `g["path"]["value"]` and `g["time"]["value"]`. */
  datatype Binding = Binding(path: string, time: string)

  /** `strptime` rejected a time text (Python's `ValueError`). */
  datatype ConvertError = BadTime(text: string)

  /** The paths the rows mention. */
  function Paths(rows: seq<Binding>): set<string> {
    set i | 0 <= i < |rows| :: rows[i].path
  }

  /** Row `i` is the last one that mentions its path. */
  predicate IsLast(rows: seq<Binding>, i: int)
    requires 0 <= i < |rows|
  {
    forall j :: i < j < |rows| ==> rows[j].path != rows[i].path
  }

  /** Some row's time does not parse. */
  predicate AnyBadTime<T>(rows: seq<Binding>, parse: string -> Option<T>) {
    exists i :: 0 <= i < |rows| && parse(rows[i].time).None?
  }

  /** The loop from `acc` on: it fails exactly when some row's time does not
      parse; otherwise the keys are the old keys plus the rows' paths, entries no
      row mentions are kept, and each path maps to the parse of its last row. */
  function ConvertFrom<T>(acc: map<string, T>, rows: seq<Binding>, parse: string -> Option<T>)
    : (r: Result<map<string, T>, ConvertError>)
    ensures r.Err? <==> AnyBadTime(rows, parse)
    ensures r.Ok? ==> r.value.Keys == acc.Keys + Paths(rows)
    ensures r.Ok? ==> forall p :: p in acc && p !in Paths(rows) ==> r.value[p] == acc[p]
    ensures r.Ok? ==> forall i :: 0 <= i < |rows| && IsLast(rows, i) ==>
                        parse(rows[i].time).Some? && r.value[rows[i].path] == parse(rows[i].time).value
    decreases |rows|
  {
    if |rows| == 0 then Ok(acc)
    else
      var row := rows[0];
      match parse(row.time)
      case None => Err(BadTime(row.time))
      case Some(t) =>
        var r := ConvertFrom(acc[row.path := t], rows[1..], parse);
        PathsCons(rows);
        AnyBadTimeCons(rows, parse);
        if r.Ok? then
          LastRows(rows, parse, r.value);
          r
        else
          r
  }

  lemma {:induction false} PathsCons(rows: seq<Binding>)
    requires |rows| > 0
    ensures Paths(rows) == {rows[0].path} + Paths(rows[1..])
  {
    var rest := rows[1..];
    forall p | p in Paths(rows) ensures p in {rows[0].path} + Paths(rest) {
      var i :| 0 <= i < |rows| && rows[i].path == p;
      if i > 0 {
        assert rest[i - 1].path == p;
      }
    }
    forall p | p in Paths(rest) ensures p in Paths(rows) {
      var i :| 0 <= i < |rest| && rest[i].path == p;
      assert rows[i + 1].path == p;
    }
  }

  lemma {:induction false} AnyBadTimeCons<T>(rows: seq<Binding>, parse: string -> Option<T>)
    requires |rows| > 0
    ensures AnyBadTime(rows, parse) <==> parse(rows[0].time).None? || AnyBadTime(rows[1..], parse)
  {
    var rest := rows[1..];
    if AnyBadTime(rows, parse) {
      var i :| 0 <= i < |rows| && parse(rows[i].time).None?;
      if i > 0 {
        assert rows[i] == rest[i - 1];
      }
    }
    if AnyBadTime(rest, parse) {
      var i :| 0 <= i < |rest| && parse(rest[i].time).None?;
      assert rows[i + 1] == rest[i];
    }
  }

  /** The last rows of the tail decide the result, and so does the first row
      when no later row repeats its path. */
  lemma {:induction false} LastRows<T>(rows: seq<Binding>, parse: string -> Option<T>, m: map<string, T>)
    requires |rows| > 0 && parse(rows[0].time).Some?
    requires Paths(rows) <= m.Keys
    requires (rows[0].path !in Paths(rows[1..]) ==> m[rows[0].path] == parse(rows[0].time).value)
    requires forall i :: 0 <= i < |rows[1..]| && IsLast(rows[1..], i) ==>
               parse(rows[1..][i].time).Some? && m[rows[1..][i].path] == parse(rows[1..][i].time).value
    ensures forall i :: 0 <= i < |rows| && IsLast(rows, i) ==>
              parse(rows[i].time).Some? && m[rows[i].path] == parse(rows[i].time).value
  {
    var rest := rows[1..];
    forall i | 0 <= i < |rows| && IsLast(rows, i)
      ensures parse(rows[i].time).Some? && m[rows[i].path] == parse(rows[i].time).value
    {
      assert rows[i].path in Paths(rows);
      if i > 0 {
        assert rows[i] == rest[i - 1];
        assert IsLast(rest, i - 1) by {
          forall j | i - 1 < j < |rest| ensures rest[j].path != rest[i - 1].path {
            assert rest[j] == rows[j + 1];
          }
        }
      } else {
        forall j | 0 <= j < |rest| ensures rest[j].path != rows[0].path {
          assert rest[j] == rows[j + 1];
        }
        assert rows[0].path !in Paths(rest);
      }
    }
  }

  /** `_convert_result_to_datetime(result)`. Its keys are exactly the paths of
      the rows, a later row for the same path overrides an earlier one, and any
      unparsable time fails the whole conversion. */
  function Convert<T>(rows: seq<Binding>, parse: string -> Option<T>): (r: Result<map<string, T>, ConvertError>)
    ensures r.Err? <==> AnyBadTime(rows, parse)
    ensures r.Ok? ==> r.value.Keys == Paths(rows)
    ensures r.Ok? ==> forall i :: 0 <= i < |rows| && IsLast(rows, i) ==>
                        parse(rows[i].time).Some? && r.value[rows[i].path] == parse(rows[i].time).value
  {
    ConvertFrom(map[], rows, parse)
  }

  /** Two rows for one path: the second wins. */
  lemma {:induction false} LaterRowWins<T>(p: string, t1: string, t2: string, parse: string -> Option<T>)
    requires parse(t1).Some? && parse(t2).Some?
    ensures Convert([Binding(p, t1), Binding(p, t2)], parse) == Ok(map[p := parse(t2).value])
  {
    var rows := [Binding(p, t1), Binding(p, t2)];
    assert IsLast(rows, 1);
    assert Paths(rows) == {p} by {
      assert rows[0].path == p;
    }
    var r := Convert(rows, parse);
    assert r.Ok?;
    assert r.value.Keys == {p};
    assert r.value[p] == parse(t2).value;
    assert r.value == map[p := parse(t2).value];
  }
}
