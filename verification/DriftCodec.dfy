// The message codec between the database worker and its clients (mobile/web/drift_worker.dart.js):
// requests, responses, errors and cancellations as trees of plain JavaScript values.
module DriftCodec {
  import opened Wrappers
  import opened DecimalText
  import opened NumberText

  type Octet = bv8

  // What crosses the channel.  A call is the object {i, p} and a table the object {c, r}.
  datatype Js =
    | JsNull
    | JsNumber(x: real)
    | JsBool(b: bool)
    | JsText(s: string)
    | JsOctets(octets: seq<Octet>)
    | JsArray(items: seq<Js>)
    | JsCall(i: Js, p: Js)
    | JsTable(columns: Js, rows: Js)

  function Int(n: int): Js {
    JsNumber(n as real)
  }

  predicate Integral(x: real) {
    x.Floor as real == x
  }

  // An entry of an array; behind its end there is nothing.
  function At(items: seq<Js>, i: nat): Js {
    if i < |items| then items[i] else JsNull
  }

  function AsInt(js: Js): Result<int> {
    if js.JsNumber? && Integral(js.x) then Ok(js.x.Floor) else Failed
  }

  function AsText(js: Js): Result<string> {
    if js.JsText? then Ok(js.s) else Failed
  }

  function AsArray(js: Js): Result<seq<Js>> {
    if js.JsArray? then Ok(js.items) else Failed
  }

  function OptionalInt(js: Js): Result<Option<int>> {
    if js.JsNull? then Ok(None)
    else
      var n :- AsInt(js);
      Ok(Some(n))
  }

  function OptionalText(js: Js): Result<Option<string>> {
    if js.JsNull? then Ok(None)
    else
      var s :- AsText(js);
      Ok(Some(s))
  }

  function IntOrNull(n: Option<int>): Js {
    if n.Some? then Int(n.value) else JsNull
  }

  function TextOrNull(s: Option<string>): Js {
    if s.Some? then JsText(s.value) else JsNull
  }

  lemma IntRead(n: int)
    ensures AsInt(Int(n)) == Ok(n) && Integral(n as real)
  {
  }

  lemma OptionsRead(n: Option<int>, s: Option<string>)
    ensures OptionalInt(IntOrNull(n)) == Ok(n) && OptionalText(TextOrNull(s)) == Ok(s)
  {
    if n.Some? { IntRead(n.value); }
  }

  // ---------------------------------------------------------------------------------------------
  // Database values

  datatype Value =
    | Null
    | Number(x: real)
    | Flag(b: bool)
    | Text(s: string)
    | Big(v: int)
    | Blob(octets: seq<Octet>)

  // Numbers with a fraction and big integers are tagged; everything else stands for itself.
  function EncodeValue(v: Value): Js {
    match v
    case Null => JsNull
    case Number(x) => if Integral(x) then JsNumber(x) else JsArray([Int(15), JsNumber(x)])
    case Flag(b) => JsBool(b)
    case Text(s) => JsText(s)
    case Big(n) => JsArray([Int(14), JsText(SignedDecimal(n))])
    case Blob(octets) => JsOctets(octets)
  }

  function DecodeValue(js: Js): Result<Value> {
    match js
    case JsNull => Ok(Null)
    case JsNumber(x) => if Integral(x) then Ok(Number(x)) else Failed
    case JsBool(b) => Ok(Flag(b))
    case JsText(s) => Ok(Text(s))
    case JsOctets(octets) => Ok(Blob(octets))
    case JsArray(items) =>
      if |items| != 2 then Failed
      else if items[0] == Int(14) then
        var s :- AsText(items[1]);
        var n := ReadNumber(s);
        if n.Some? then Ok(Big(n.value)) else Failed
      else if items[1].JsNumber? then Ok(Number(items[1].x))
      else Failed
    case _ => Failed
  }

  lemma ValueRoundTrip(v: Value)
    ensures DecodeValue(EncodeValue(v)) == Ok(v)
  {
    hide ReadNumber, SignedDecimal;
    match v
    case Big(n) =>
      IntRead(14);
      PrintedTextReadsBack(n);
    case Number(x) =>
      assert (15 as real) != (14 as real);
    case _ =>
  }

  // What a value may look like when it arrives: any pair with a number is that number unless its tag is
  // that of a big integer, whose text may be written in more than one way.
  lemma ArrivesExactly(js: Js, v: Value)
    ensures DecodeValue(js) == Ok(v) <==>
      match v
      case Null => js == JsNull
      case Flag(b) => js == JsBool(b)
      case Text(s) => js == JsText(s)
      case Blob(octets) => js == JsOctets(octets)
      case Number(x) => (js == JsNumber(x) && Integral(x))
                     || exists tag: Js :: tag != Int(14) && js == JsArray([tag, JsNumber(x)])
      case Big(n) => exists s: string :: js == JsArray([Int(14), JsText(s)]) && ReadNumber(s) == Some(n)
  {
    hide ReadNumber, Integral;
    IntRead(14);
    if js.JsArray? && |js.items| == 2 {
      assert js.items == [js.items[0], js.items[1]];
    }
  }

  function EncodeValues(values: seq<Value>): (items: seq<Js>)
    ensures |items| == |values|
  {
    seq(|values|, i requires 0 <= i < |values| => EncodeValue(values[i]))
  }

  function DecodeValues(items: seq<Js>): Result<seq<Value>> {
    if items == [] then Ok([])
    else
      var v :- DecodeValue(items[0]);
      var rest :- DecodeValues(items[1..]);
      Ok([v] + rest)
  }

  lemma {:induction false} ValuesRoundTrip(values: seq<Value>)
    ensures DecodeValues(EncodeValues(values)) == Ok(values)
  {
    hide EncodeValue, DecodeValue;
    if values != [] {
      ValueRoundTrip(values[0]);
      ValuesRoundTrip(values[1..]);
      assert EncodeValues(values)[1..] == EncodeValues(values[1..]);
      assert values == [values[0]] + values[1..];
    }
  }

  // The loop that the encoder runs over arguments, rows and parameters.
  method PushValues(begun: seq<Js>, values: seq<Value>) returns (items: seq<Js>)
    ensures items == begun + EncodeValues(values)
  {
    items := begun;
    for n := 0 to |values|
      invariant items == begun + EncodeValues(values[..n])
    {
      assert EncodeValues(values[..n + 1]) == EncodeValues(values[..n]) + [EncodeValue(values[n])];
      items := items + [EncodeValue(values[n])];
    }
    assert values[..|values|] == values;
  }

  // ---------------------------------------------------------------------------------------------
  // Requests

  datatype Run = Run(statement: int, arguments: seq<Value>)
  // The enumerations that cross as numbers, each with the list the decoder looks its number up in,
  // and the one that crosses as a name.
  datatype Method = RunCustom | RunDeleteOrUpdate | RunInsert | RunSelect
  datatype Control = BeginTransaction | Commit | Rollback | StartExclusive | EndExclusive
  datatype UpdateKind = UpdateInsert | UpdateUpdate | UpdateDelete
  datatype Dialect = DialectSqlite | DialectMysql | DialectPostgres | DialectDuckdb | DialectMariadb

  const Methods: seq<Method> := [RunCustom, RunDeleteOrUpdate, RunInsert, RunSelect]
  const Controls: seq<Control> := [BeginTransaction, Commit, Rollback, StartExclusive, EndExclusive]
  const UpdateKinds: seq<UpdateKind> := [UpdateInsert, UpdateUpdate, UpdateDelete]
  const Dialects: seq<Dialect> := [DialectSqlite, DialectMysql, DialectPostgres, DialectDuckdb, DialectMariadb]

  function MethodNumber(m: Method): nat {
    match m
    case RunCustom => 0
    case RunDeleteOrUpdate => 1
    case RunInsert => 2
    case RunSelect => 3
  }

  function ControlNumber(c: Control): nat {
    match c
    case BeginTransaction => 0
    case Commit => 1
    case Rollback => 2
    case StartExclusive => 3
    case EndExclusive => 4
  }

  function KindNumber(k: UpdateKind): nat {
    match k
    case UpdateInsert => 0
    case UpdateUpdate => 1
    case UpdateDelete => 2
  }

  function DialectName(d: Dialect): string {
    match d
    case DialectSqlite => "sqlite"
    case DialectMysql => "mysql"
    case DialectPostgres => "postgres"
    case DialectDuckdb => "duckdb"
    case DialectMariadb => "mariadb"
  }

  // The compiled look-up does not check its number: outside the list there is no value.
  function EntryAt<E>(list: seq<E>, n: int): Option<E> {
    if 0 <= n < |list| then Some(list[n]) else None
  }

  datatype TableUpdate = TableUpdate(kind: Option<UpdateKind>, table: string)

  datatype Payload =
    | Nothing
    | NoArguments
    | Execute(mode: Option<Method>, sql: string, arguments: seq<Value>, executor: Option<int>)
    | Cancel(original: int)
    | Batch(statements: seq<string>, runs: seq<Run>, executor: Option<int>)
    | Nested(control: Option<Control>, executor: Option<int>)
    | EnsureOpen(version: int, executor: Option<int>)
    | ServerInfo(dialect: Dialect)
    | RunBeforeOpen(versionBefore: Option<int>, versionNow: int, createdExecutor: int)
    | NotifyTables(updates: seq<TableUpdate>)
  {
    // A request to be sent names its method or control; a decoded one may have none.
    predicate Valid() {
      (Execute? ==> mode.Some?) && (Nested? ==> control.Some?)
    }
  }

  function EncodeTexts(texts: seq<string>): (items: seq<Js>)
    ensures |items| == |texts|
  {
    seq(|texts|, i requires 0 <= i < |texts| => JsText(texts[i]))
  }

  function DecodeTexts(items: seq<Js>): Result<seq<string>> {
    if items == [] then Ok([])
    else
      var s :- AsText(items[0]);
      var rest :- DecodeTexts(items[1..]);
      Ok([s] + rest)
  }

  lemma {:induction false} TextsRoundTrip(texts: seq<string>)
    ensures DecodeTexts(EncodeTexts(texts)) == Ok(texts)
  {
    if texts != [] {
      TextsRoundTrip(texts[1..]);
      assert EncodeTexts(texts)[1..] == EncodeTexts(texts[1..]);
      assert texts == [texts[0]] + texts[1..];
    }
  }

  function EncodeRun(run: Run): Js {
    JsArray([Int(run.statement)] + EncodeValues(run.arguments))
  }

  function DecodeRun(js: Js): Result<Run> {
    var items :- AsArray(js);
    var statement :- AsInt(At(items, 0));
    var arguments :- DecodeValues(items[1..]);
    Ok(Run(statement, arguments))
  }

  lemma RunRoundTrip(run: Run)
    ensures DecodeRun(EncodeRun(run)) == Ok(run)
  {
    hide EncodeValues, DecodeValues;
    IntRead(run.statement);
    ValuesRoundTrip(run.arguments);
    assert ([Int(run.statement)] + EncodeValues(run.arguments))[1..] == EncodeValues(run.arguments);
  }

  function EncodeRuns(runs: seq<Run>): (items: seq<Js>)
    ensures |items| == |runs|
  {
    seq(|runs|, i requires 0 <= i < |runs| => EncodeRun(runs[i]))
  }

  function DecodeRuns(items: seq<Js>): Result<seq<Run>> {
    if items == [] then Ok([])
    else
      var run :- DecodeRun(items[0]);
      var rest :- DecodeRuns(items[1..]);
      Ok([run] + rest)
  }

  lemma {:induction false} RunsRoundTrip(runs: seq<Run>)
    ensures DecodeRuns(EncodeRuns(runs)) == Ok(runs)
  {
    hide EncodeRun, DecodeRun;
    if runs != [] {
      RunRoundTrip(runs[0]);
      RunsRoundTrip(runs[1..]);
      assert EncodeRuns(runs)[1..] == EncodeRuns(runs[1..]);
      assert runs == [runs[0]] + runs[1..];
    }
  }

  function EncodeUpdate(u: TableUpdate): Js {
    JsArray([JsText(u.table), if u.kind.Some? then Int(KindNumber(u.kind.value)) else JsNull])
  }

  function DecodeUpdate(js: Js): Result<TableUpdate> {
    var items :- AsArray(js);
    if |items| != 2 then Failed
    else
      var table :- AsText(items[0]);
      var kind :- OptionalInt(items[1]);
      Ok(TableUpdate(if kind.Some? then EntryAt(UpdateKinds, kind.value) else None, table))
  }

  function EncodeUpdates(updates: seq<TableUpdate>): (items: seq<Js>)
    ensures |items| == |updates|
  {
    seq(|updates|, i requires 0 <= i < |updates| => EncodeUpdate(updates[i]))
  }

  function DecodeUpdates(items: seq<Js>): Result<seq<TableUpdate>> {
    if items == [] then Ok([])
    else
      var u :- DecodeUpdate(items[0]);
      var rest :- DecodeUpdates(items[1..]);
      Ok([u] + rest)
  }

  lemma UpdateRoundTrip(u: TableUpdate)
    ensures DecodeUpdate(EncodeUpdate(u)) == Ok(u)
  {
    if u.kind.Some? { IntRead(KindNumber(u.kind.value)); }
  }

  lemma {:induction false} UpdatesRoundTrip(updates: seq<TableUpdate>)
    ensures DecodeUpdates(EncodeUpdates(updates)) == Ok(updates)
  {
    hide EncodeUpdate, DecodeUpdate;
    if updates != [] {
      UpdateRoundTrip(updates[0]);
      UpdatesRoundTrip(updates[1..]);
      assert EncodeUpdates(updates)[1..] == EncodeUpdates(updates[1..]);
      assert updates == [updates[0]] + updates[1..];
    }
  }

  function EncodePayload(p: Payload): Js
    requires p.Valid()
  {
    match p
    case Nothing => JsNull
    case NoArguments => Int(0)
    case Execute(mode, sql, arguments, executor) =>
      JsArray([Int(3), Int(MethodNumber(mode.value)), JsText(sql), JsArray(EncodeValues(arguments)),
        IntOrNull(executor)])
    case Cancel(original) => JsArray([Int(12), Int(original)])
    case Batch(statements, runs, executor) =>
      JsArray([Int(4), JsArray(EncodeTexts(statements))] + EncodeRuns(runs) + [IntOrNull(executor)])
    case Nested(control, executor) => JsArray([Int(5), Int(ControlNumber(control.value)), IntOrNull(executor)])
    case EnsureOpen(version, executor) => JsArray([Int(6), Int(version), IntOrNull(executor)])
    case ServerInfo(dialect) => JsArray([Int(13), JsText(DialectName(dialect))])
    case RunBeforeOpen(before, versionNow, executor) =>
      JsArray([Int(7), IntOrNull(before), Int(versionNow), Int(executor)])
    case NotifyTables(updates) => JsArray([Int(8)] + EncodeUpdates(updates))
  }

  lemma RunItems(run: Run)
    ensures EncodeRun(run) == JsArray([Int(run.statement)] + EncodeValues(run.arguments))
  {
  }

  method PayloadToJs(p: Payload) returns (js: Js)
    requires p.Valid()
    ensures js == EncodePayload(p)
  {
    match p
    case Execute(mode, sql, arguments, executor) =>
      var q := PushValues([], arguments);
      assert q == EncodeValues(arguments);
      js := JsArray([Int(3), Int(MethodNumber(mode.value)), JsText(sql), JsArray(q), IntOrNull(executor)]);
    case Batch(statements, runs, executor) =>
      hide EncodeTexts, EncodeRun;
      var begun := [Int(4), JsArray(EncodeTexts(statements))];
      var q := begun;
      for n := 0 to |runs|
        invariant q == begun + EncodeRuns(runs[..n])
      {
        var o := PushValues([Int(runs[n].statement)], runs[n].arguments);
        RunItems(runs[n]);
        assert EncodeRuns(runs[..n + 1]) == EncodeRuns(runs[..n]) + [EncodeRun(runs[n])];
        q := q + [JsArray(o)];
      }
      assert runs[..|runs|] == runs;
      js := JsArray(q + [IntOrNull(executor)]);
    case NotifyTables(updates) =>
      var q := [Int(8)];
      for n := 0 to |updates|
        invariant q == [Int(8)] + EncodeUpdates(updates[..n])
      {
        assert EncodeUpdates(updates[..n + 1]) == EncodeUpdates(updates[..n]) + [EncodeUpdate(updates[n])];
        q := q + [EncodeUpdate(updates[n])];
      }
      assert updates[..|updates|] == updates;
      js := JsArray(q);
    case _ => js := EncodePayload(p);
  }

  function DialectNamed(name: string, from: nat): Result<Dialect>
    requires from <= |Dialects|
    decreases |Dialects| - from
  {
    if from == |Dialects| then Failed
    else if DialectName(Dialects[from]) == name then Ok(Dialects[from])
    else DialectNamed(name, from + 1)
  }

  function DecodePayload(js: Js): Result<Payload> {
    match js
    case JsNull => Ok(Nothing)
    case JsNumber(_) => Ok(NoArguments)
    case JsArray(items) =>
      var tag :- AsInt(At(items, 0));
      DecodeTagged(tag, items)
    case _ => Failed
  }

  function DecodeTagged(tag: int, items: seq<Js>): Result<Payload> {
    match tag
    case 3 =>
      var mode :- AsInt(At(items, 1));
      var sql :- AsText(At(items, 2));
      var list :- AsArray(At(items, 3));
      var arguments :- DecodeValues(list);
      var executor :- OptionalInt(At(items, 4));
      Ok(Execute(EntryAt(Methods, mode), sql, arguments, executor))
    case 12 =>
      var original :- AsInt(At(items, 1));
      Ok(Cancel(original))
    case 4 => DecodeBatch(items)
    case 5 =>
      var control :- AsInt(At(items, 1));
      var executor :- OptionalInt(At(items, 2));
      Ok(Nested(EntryAt(Controls, control), executor))
    case 6 =>
      var version :- AsInt(At(items, 1));
      var executor :- OptionalInt(At(items, 2));
      Ok(EnsureOpen(version, executor))
    case 13 =>
      var name :- AsText(At(items, 1));
      var dialect :- DialectNamed(name, 0);
      Ok(ServerInfo(dialect))
    case 7 =>
      var before :- OptionalInt(At(items, 1));
      var versionNow :- AsInt(At(items, 2));
      var executor :- AsInt(At(items, 3));
      Ok(RunBeforeOpen(before, versionNow, executor))
    case 8 =>
      if items == [] then Failed
      else
        var updates :- DecodeUpdates(items[1..]);
        Ok(NotifyTables(updates))
    case _ => Failed
  }

  // The statements come second and the executor last; everything in between is a run.
  function DecodeBatch(items: seq<Js>): Result<Payload> {
    if |items| < 3 then Failed
    else
      var list :- AsArray(items[1]);
      var statements :- DecodeTexts(list);
      var runs :- DecodeRuns(items[2..|items| - 1]);
      var executor :- OptionalInt(items[|items| - 1]);
      Ok(Batch(statements, runs, executor))
  }

  lemma BatchRoundTrip(statements: seq<string>, runs: seq<Run>, executor: Option<int>)
    ensures DecodePayload(EncodePayload(Batch(statements, runs, executor))) == Ok(Batch(statements, runs, executor))
  {
    hide EncodeTexts, DecodeTexts, EncodeRuns, DecodeRuns;
    IntRead(4);
    TextsRoundTrip(statements);
    RunsRoundTrip(runs);
    OptionsRead(executor, None);
    var head, tail := [Int(4), JsArray(EncodeTexts(statements))], [IntOrNull(executor)];
    var items := head + EncodeRuns(runs) + tail;
    assert items[2..|items| - 1] == EncodeRuns(runs);
    assert items[1] == head[1] && items[0] == Int(4) && items[|items| - 1] == IntOrNull(executor);
  }

  lemma PayloadRoundTrip(p: Payload)
    requires p.Valid()
    ensures DecodePayload(EncodePayload(p)) == Ok(p)
  {
    hide EncodeValues, DecodeValues, EncodeUpdates, DecodeUpdates, DecodeBatch, EncodeTexts, EncodeRuns, Integral;
    match p
    case Nothing =>
    case NoArguments => IntRead(0);
    case Execute(mode, _, arguments, executor) =>
      IntRead(3); IntRead(MethodNumber(mode.value)); ValuesRoundTrip(arguments); OptionsRead(executor, None);
    case Cancel(original) => IntRead(12); IntRead(original);
    case Batch(statements, runs, executor) => BatchRoundTrip(statements, runs, executor);
    case Nested(control, executor) => IntRead(5); IntRead(ControlNumber(control.value)); OptionsRead(executor, None);
    case EnsureOpen(version, executor) => IntRead(6); IntRead(version); OptionsRead(executor, None);
    case ServerInfo(dialect) => IntRead(13); DialectListed(dialect); NamesTellApart(dialect, 0);
    case RunBeforeOpen(before, versionNow, executor) =>
      IntRead(7); OptionsRead(before, None); IntRead(versionNow); IntRead(executor);
    case NotifyTables(updates) =>
      IntRead(8); UpdatesRoundTrip(updates);
      assert ([Int(8)] + EncodeUpdates(updates))[1..] == EncodeUpdates(updates);
  }

  lemma DialectListed(dialect: Dialect)
    ensures exists i :: 0 <= i < 5 && Dialects[i] == dialect
  {
    assert Dialects[0] == DialectSqlite && Dialects[1] == DialectMysql && Dialects[2] == DialectPostgres;
    assert Dialects[3] == DialectDuckdb && Dialects[4] == DialectMariadb;
  }

  lemma NamesTellApart(dialect: Dialect, from: nat)
    requires from < 5 && exists i :: from <= i < 5 && Dialects[i] == dialect
    ensures DialectNamed(DialectName(dialect), from) == Ok(dialect)
    decreases 5 - from
  {
    if Dialects[from] != dialect {
      assert DialectName(Dialects[from]) != DialectName(dialect) by {
        assert "sqlite"[0] == 's' && "mysql"[0] == 'm' && "postgres"[0] == 'p' && "duckdb"[0] == 'd';
        assert "mariadb"[0] == 'm' && "mysql"[1] == 'y' && "mariadb"[1] == 'a';
      }
      NamesTellApart(dialect, from + 1);
    }
  }

  // ---------------------------------------------------------------------------------------------
  // What stands for what on the channel, number by number

  // A statement request decodes for every number, to the method of that number; any other number
  // gives a request without a method, because the look-up is not checked.
  lemma MethodOfNumber(n: int, sql: string, arguments: seq<Value>, executor: Option<int>)
    ensures var named := if n == 0 then Some(RunCustom) else if n == 1 then Some(RunDeleteOrUpdate)
                         else if n == 2 then Some(RunInsert) else if n == 3 then Some(RunSelect) else None;
            DecodePayload(JsArray([Int(3), Int(n), JsText(sql), JsArray(EncodeValues(arguments)), IntOrNull(executor)]))
              == Ok(Execute(named, sql, arguments, executor))
  {
    hide EncodeValues, DecodeValues, Integral;
    IntRead(3);
    IntRead(n);
    ValuesRoundTrip(arguments);
    OptionsRead(executor, None);
  }

  lemma ControlOfNumber(n: int, executor: Option<int>)
    ensures var control := if n == 0 then Some(BeginTransaction) else if n == 1 then Some(Commit)
                           else if n == 2 then Some(Rollback) else if n == 3 then Some(StartExclusive)
                           else if n == 4 then Some(EndExclusive) else None;
            DecodePayload(JsArray([Int(5), Int(n), IntOrNull(executor)])) == Ok(Nested(control, executor))
  {
    hide Integral;
    IntRead(5);
    IntRead(n);
    OptionsRead(executor, None);
  }

  lemma KindOfNumber(n: int, table: string)
    ensures var kind := if n == 0 then Some(UpdateInsert) else if n == 1 then Some(UpdateUpdate)
                        else if n == 2 then Some(UpdateDelete) else None;
            DecodePayload(JsArray([Int(8), JsArray([JsText(table), Int(n)])]))
              == Ok(NotifyTables([TableUpdate(kind, table)]))
  {
    hide Integral;
    IntRead(8);
    IntRead(n);
    OptionsRead(Some(n), None);
    var update := JsArray([JsText(table), Int(n)]);
    assert [Int(8), update][1..] == [update] && [update][1..] == [];
    assert OptionalInt(Int(n)) == Ok(Some(n));
    var decoded := TableUpdate(EntryAt(UpdateKinds, n), table);
    assert DecodeUpdate(update) == Ok(decoded);
    OneUpdate(update, decoded);
  }

  lemma OneUpdate(js: Js, update: TableUpdate)
    requires DecodeUpdate(js) == Ok(update)
    ensures DecodeUpdates([js]) == Ok([update])
  {
    hide DecodeUpdate;
    var none: seq<Js> := [];
    assert [js][1..] == none && DecodeUpdates(none) == Ok([]);
    assert [update] + [] == [update];
  }

  // A dialect is named in the request for the server's own; no other name is accepted.
  lemma DialectOfName(name: string)
    ensures DecodePayload(JsArray([Int(13), JsText(name)])) ==
              if name == "sqlite" then Ok(ServerInfo(DialectSqlite))
              else if name == "mysql" then Ok(ServerInfo(DialectMysql))
              else if name == "postgres" then Ok(ServerInfo(DialectPostgres))
              else if name == "duckdb" then Ok(ServerInfo(DialectDuckdb))
              else if name == "mariadb" then Ok(ServerInfo(DialectMariadb))
              else Failed
  {
    hide Integral;
    IntRead(13);
    assert DialectNamed(name, 5) == Failed;
    assert DialectNamed(name, 4) == if name == "mariadb" then Ok(DialectMariadb) else Failed;
  }

  // Every request that is not a bare value is an array that starts with the number of its kind.
  lemma RequestNumbers(p: Payload)
    requires p.Valid()
    ensures var js := EncodePayload(p);
            match p
            case Nothing => js == JsNull
            case NoArguments => js == Int(0)
            case Execute(_, _, _, _) => js.JsArray? && At(js.items, 0) == Int(3)
            case Batch(_, _, _) => js.JsArray? && At(js.items, 0) == Int(4)
            case Nested(_, _) => js.JsArray? && At(js.items, 0) == Int(5)
            case EnsureOpen(_, _) => js.JsArray? && At(js.items, 0) == Int(6)
            case RunBeforeOpen(_, _, _) => js.JsArray? && At(js.items, 0) == Int(7)
            case NotifyTables(_) => js.JsArray? && At(js.items, 0) == Int(8)
            case Cancel(_) => js.JsArray? && At(js.items, 0) == Int(12)
            case ServerInfo(_) => js.JsArray? && At(js.items, 0) == Int(13)
  {
    hide EncodeValues, EncodeTexts, EncodeRuns, EncodeUpdates;
  }

  // ---------------------------------------------------------------------------------------------
  // Result tables

  // A cell under its column name; the decoder puts a value without a name under no name at all.
  datatype Cell = Cell(column: Option<string>, value: Value)

  // A row in the order of its columns.  A row to be sent has each column once, and every name.
  type Row = seq<Cell>

  ghost predicate IsRow(row: Row) {
    && (forall cell <- row :: cell.column.Some?)
    && forall i, j :: 0 <= i < j < |row| ==> row[i].column != row[j].column
  }

  function EncodeNames(names: seq<Option<string>>): (items: seq<Js>)
    ensures |items| == |names|
  {
    seq(|names|, i requires 0 <= i < |names| => TextOrNull(names[i]))
  }

  function Named(texts: seq<string>): (names: seq<Option<string>>)
    ensures |names| == |texts| && forall i :: 0 <= i < |texts| ==> names[i] == Some(texts[i])
  {
    seq(|texts|, i requires 0 <= i < |texts| => Some(texts[i]))
  }

  lemma {:induction false} NamesRead(names: seq<Option<string>>) returns (texts: seq<string>)
    requires forall name <- names :: name.Some?
    ensures DecodeTexts(EncodeNames(names)) == Ok(texts) && Named(texts) == names
  {
    texts := [];
    if names != [] {
      hide DecodeTexts, EncodeNames, Named;
      var rest := NamesRead(names[1..]);
      texts := [names[0].value] + rest;
      FirstNameRead(names, rest);
    }
  }

  lemma FirstNameRead(names: seq<Option<string>>, rest: seq<string>)
    requires names != [] && names[0].Some?
    requires DecodeTexts(EncodeNames(names[1..])) == Ok(rest) && Named(rest) == names[1..]
    ensures DecodeTexts(EncodeNames(names)) == Ok([names[0].value] + rest) && Named([names[0].value] + rest) == names
  {
    assert EncodeNames(names)[1..] == EncodeNames(names[1..]);
    assert EncodeNames(names)[0] == JsText(names[0].value);
    assert Named([names[0].value] + rest) == [Some(names[0].value)] + Named(rest);
    assert names == [names[0]] + names[1..];
  }

  function Columns(row: Row): (names: seq<Option<string>>)
    ensures |names| == |row| && forall i :: 0 <= i < |row| ==> names[i] == row[i].column
  {
    seq(|row|, i requires 0 <= i < |row| => row[i].column)
  }

  function Values(row: Row): (values: seq<Value>)
    ensures |values| == |row| && forall i :: 0 <= i < |row| ==> values[i] == row[i].value
  {
    seq(|row|, i requires 0 <= i < |row| => row[i].value)
  }

  // The columns of the first row head the table; each row gives its values in its own order.
  function EncodeTable(rows: seq<Row>): Js {
    JsTable(JsArray(if rows == [] then [] else EncodeNames(Columns(rows[0]))),
            JsArray(seq(|rows|, i requires 0 <= i < |rows| => JsArray(EncodeValues(Values(rows[i]))))))
  }

  method TableToJs(rows: seq<Row>) returns (js: Js)
    ensures js == EncodeTable(rows)
  {
    if rows == [] {
      assert seq(|rows|, i requires 0 <= i < |rows| => JsArray(EncodeValues(Values(rows[i])))) == [];
      return JsTable(JsArray([]), JsArray([]));
    }
    var lines: seq<Js> := [];
    for n := 0 to |rows|
      invariant |lines| == n && forall i :: 0 <= i < n ==> lines[i] == JsArray(EncodeValues(Values(rows[i])))
    {
      var q := PushValues([], Values(rows[n]));
      lines := lines + [JsArray(q)];
    }
    assert lines == seq(|rows|, i requires 0 <= i < |rows| => JsArray(EncodeValues(Values(rows[i]))));
    js := JsTable(JsArray(EncodeNames(Columns(rows[0]))), JsArray(lines));
  }

  // Set a cell: a column that is there keeps its place.
  function Put(row: Row, cell: Cell): Row {
    if row == [] then [cell]
    else if row[0].column == cell.column then [cell] + row[1..]
    else [row[0]] + Put(row[1..], cell)
  }

  // Name the values of one line by the column at the same position; a value behind the last column
  // gets no name.
  function DecodeLine(columns: seq<string>, line: seq<Js>, done: nat, row: Row): Result<Row>
    decreases |line| - done
  {
    if done >= |line| then Ok(row)
    else
      var v :- DecodeValue(line[done]);
      DecodeLine(columns, line, done + 1, Put(row, Cell(ColumnAt(columns, done), v)))
  }

  function ColumnAt(columns: seq<string>, i: nat): Option<string> {
    if i < |columns| then Some(columns[i]) else None
  }

  function DecodeLines(columns: seq<string>, lines: seq<Js>): Result<seq<Row>> {
    if lines == [] then Ok([])
    else
      var line :- AsArray(lines[0]);
      var row :- DecodeLine(columns, line, 0, []);
      var rest :- DecodeLines(columns, lines[1..]);
      Ok([row] + rest)
  }

  function DecodeTable(js: Js): Result<seq<Row>> {
    if !js.JsTable? then Failed
    else
      var names :- AsArray(js.columns);
      var columns :- DecodeTexts(names);
      var lines :- AsArray(js.rows);
      DecodeLines(columns, lines)
  }

  method TableFromJs(js: Js) returns (table: Result<seq<Row>>)
    ensures table == DecodeTable(js)
  {
    hide DecodeValue, Put;
    if !js.JsTable? || !js.columns.JsArray? { return Failed; }
    var names := DecodeTexts(js.columns.items);
    if names.Failed? || !js.rows.JsArray? { return Failed; }
    var columns, lines := names.value, js.rows.items;
    var rows: seq<Row> := [];
    assert lines[0..] == lines;
    AfterOneMore([], [], DecodeLines(columns, lines));
    for n := 0 to |lines|
      invariant DecodeLines(columns, lines) == After(rows, DecodeLines(columns, lines[n..]))
    {
      var line := AsArray(lines[n]);
      assert lines[n..][1..] == lines[n + 1..];
      if line.Failed? { return Failed; }
      var m: Row := [];
      for j := 0 to |line.value|
        invariant DecodeLine(columns, line.value, 0, []) == DecodeLine(columns, line.value, j, m)
      {
        var v := DecodeValue(line.value[j]);
        if v.Failed? { return Failed; }
        m := Put(m, Cell(ColumnAt(columns, j), v.value));
      }
      AfterOneMore(rows, m, DecodeLines(columns, lines[n + 1..]));
      rows := rows + [m];
    }
    assert lines[|lines|..] == [];
    AfterOneMore(rows, [], Failed);
    return Ok(rows);
  }

  // Rows read so far, in front of those that the rest of the table gives.
  function After(rows: seq<Row>, rest: Result<seq<Row>>): Result<seq<Row>> {
    if rest.Ok? then Ok(rows + rest.value) else Failed
  }

  lemma AfterOneMore(rows: seq<Row>, row: Row, rest: Result<seq<Row>>)
    ensures After(rows, After([row], rest)) == After(rows + [row], rest)
    ensures After([], rest) == rest && After(rows, Ok([])) == Ok(rows)
  {
    assert rows + [] == rows && (rest.Ok? ==> [] + rest.value == rest.value);
    if rest.Ok? { assert rows + ([row] + rest.value) == rows + [row] + rest.value; }
  }

  lemma {:induction false} PutNew(row: Row, cell: Cell)
    requires forall i :: 0 <= i < |row| ==> row[i].column != cell.column
    ensures Put(row, cell) == row + [cell]
  {
    if row != [] {
      PutNew(row[1..], cell);
      assert row + [cell] == [row[0]] + (row[1..] + [cell]);
    }
  }

  // The row that a line stands for while it has columns.
  function Labelled(columns: seq<string>, values: seq<Value>): (row: Row)
    requires |values| <= |columns|
    ensures |row| == |values| && forall i :: 0 <= i < |row| ==> row[i] == Cell(Some(columns[i]), values[i])
  {
    seq(|values|, i requires 0 <= i < |values| => Cell(Some(columns[i]), values[i]))
  }

  lemma {:induction false} LineRead(columns: seq<string>, values: seq<Value>, done: nat)
    requires forall i, j :: 0 <= i < j < |columns| ==> columns[i] != columns[j]
    requires done <= |values| && done <= |columns|
    ensures var read := DecodeLine(columns, EncodeValues(values), done, Labelled(columns, values[..done]));
            if |values| <= |columns| then read == Ok(Labelled(columns, values))
            else read.Ok? && |read.value| == |columns| + 1 && read.value[|columns|].column == None
    decreases |values| - done
  {
    hide EncodeValue, DecodeValue, Put;
    if done < |values| {
      ValueRoundTrip(values[done]);
      PutNew(Labelled(columns, values[..done]), Cell(ColumnAt(columns, done), values[done]));
      if done < |columns| {
        assert Labelled(columns, values[..done + 1])
            == Labelled(columns, values[..done]) + [Cell(Some(columns[done]), values[done])];
        LineRead(columns, values, done + 1);
      } else {
        Overrun(columns, values, done + 1, Labelled(columns, values[..done]) + [Cell(None, values[done])]);
      }
    } else {
      assert values[..done] == values;
    }
  }

  // Behind the last column every value takes the place of the one before it.
  lemma {:induction false} Overrun(columns: seq<string>, values: seq<Value>, done: nat, row: Row)
    requires |columns| < done <= |values| && |row| == |columns| + 1 && row[|columns|].column == None
    requires forall i :: 0 <= i < |columns| ==> row[i].column != None
    ensures var read := DecodeLine(columns, EncodeValues(values), done, row);
            read.Ok? && |read.value| == |columns| + 1 && read.value[|columns|].column == None
    decreases |values| - done
  {
    hide EncodeValue, DecodeValue, Put;
    if done < |values| {
      ValueRoundTrip(values[done]);
      var cell := Cell(None, values[done]);
      PutAtEnd(row, cell);
      Overrun(columns, values, done + 1, row[..|columns|] + [cell]);
    }
  }

  lemma {:induction false} PutAtEnd(row: Row, cell: Cell)
    requires row != [] && row[|row| - 1].column == cell.column
    requires forall i :: 0 <= i < |row| - 1 ==> row[i].column != cell.column
    ensures Put(row, cell) == row[..|row| - 1] + [cell]
  {
    if |row| > 1 {
      PutAtEnd(row[1..], cell);
      assert row[..|row| - 1] == [row[0]] + row[1..][..|row| - 2];
    }
  }

  lemma RowRead(columns: seq<string>, row: Row)
    requires forall i, j :: 0 <= i < j < |columns| ==> columns[i] != columns[j]
    requires forall cell <- row :: cell.column.Some?
    ensures DecodeLine(columns, EncodeValues(Values(row)), 0, []).Ok?
    ensures DecodeLine(columns, EncodeValues(Values(row)), 0, []) == Ok(row) <==> Columns(row) <= Named(columns)
  {
    LineRead(columns, Values(row), 0);
    hide DecodeLine, EncodeValues;
    assert Labelled(columns, Values(row)[..0]) == [];
    if Columns(row) <= Named(columns) {
      forall i | 0 <= i < |row| ensures Labelled(columns, Values(row))[i] == row[i] {
        assert Columns(row)[i] == Named(columns)[i];
      }
      assert Labelled(columns, Values(row)) == row;
    } else if |row| <= |columns| {
      var i :| 0 <= i < |row| && Columns(row)[i] != Named(columns)[i];
      assert Labelled(columns, Values(row))[i] != row[i];
    } else if |row| == |columns| + 1 {
      assert row[|columns|] in row;
    }
  }

  lemma {:induction false} LinesRead(columns: seq<string>, rows: seq<Row>, lines: seq<Js>)
    requires forall i, j :: 0 <= i < j < |columns| ==> columns[i] != columns[j]
    requires forall row <- rows :: IsRow(row)
    requires |lines| == |rows| && forall i :: 0 <= i < |rows| ==> lines[i] == JsArray(EncodeValues(Values(rows[i])))
    ensures DecodeLines(columns, lines).Ok?
    ensures DecodeLines(columns, lines) == Ok(rows) <==> forall row <- rows :: Columns(row) <= Named(columns)
  {
    hide DecodeLine, EncodeValues, Columns, Values;
    if rows != [] {
      assert IsRow(rows[0]);
      RowRead(columns, rows[0]);
      LinesRead(columns, rows[1..], lines[1..]);
      assert rows == [rows[0]] + rows[1..];
    }
  }

  // A result table survives exactly when the columns of every row are the first columns of the
  // first row, in that order; it is never refused.
  lemma TableRoundTripExactly(rows: seq<Row>)
    requires forall row <- rows :: IsRow(row)
    ensures DecodeTable(EncodeTable(rows)).Ok?
    ensures DecodeTable(EncodeTable(rows)) == Ok(rows) <==> forall row <- rows :: Columns(row) <= Columns(rows[0])
  {
    var names := if rows == [] then [] else Columns(rows[0]);
    if rows == [] { NoNames(); } else { SentNames(rows[0]); }
    hide DecodeLines, EncodeNames, DecodeTexts, EncodeValues, Values, IsRow;
    var columns := NamesRead(names);
    var lines := seq(|rows|, i requires 0 <= i < |rows| => JsArray(EncodeValues(Values(rows[i]))));
    DistinctTexts(columns);
    LinesRead(columns, rows, lines);
  }

  lemma SentNames(row: Row)
    requires IsRow(row)
    ensures forall name <- Columns(row) :: name.Some?
    ensures forall i, j :: 0 <= i < j < |row| ==> Columns(row)[i] != Columns(row)[j]
  {
    forall i | 0 <= i < |row| ensures Columns(row)[i].Some? { assert row[i] in row; }
  }

  lemma DistinctTexts(texts: seq<string>)
    requires forall i, j :: 0 <= i < j < |texts| ==> Named(texts)[i] != Named(texts)[j]
    ensures forall i, j :: 0 <= i < j < |texts| ==> texts[i] != texts[j]
  {
    forall i, j | 0 <= i < j < |texts| ensures texts[i] != texts[j] {
      assert Named(texts)[i] != Named(texts)[j];
    }
  }

  lemma NoNames()
    ensures EncodeNames([]) == []
  {
  }

  // ---------------------------------------------------------------------------------------------
  // Messages

  datatype SqliteException = SqliteException(
    message: string, explanation: Option<string>, extendedCode: int, position: Option<int>,
    operation: Option<string>, statement: Option<string>, parameters: Option<seq<Value>>)

  // Errors other than a SqliteException cross as their text.
  datatype Error = Described(text: string) | Sqlite(exception: SqliteException)

  datatype Response = NoResponse | Primitive(flag: bool) | Count(n: int) | Select(rows: seq<Row>)

  datatype Message =
    | Request(id: int, payload: Payload)
    | Success(id: int, response: Response)
    | Failure(id: int, error: Error, trace: Option<string>)
    | Cancelled(id: int)
  {
    ghost predicate Valid() {
      && (Request? ==> payload.Valid())
      && (Success? && response.Select? ==> forall row <- response.rows :: IsRow(row))
    }
  }

  function EncodeResponse(r: Response): Js {
    match r
    case NoResponse => JsNull
    case Primitive(flag) => JsBool(flag)
    case Count(n) => Int(n)
    case Select(rows) => EncodeTable(rows)
  }

  function DecodeResponse(js: Js): Result<Response> {
    match js
    case JsNull => Ok(NoResponse)
    case JsBool(flag) => Ok(Primitive(flag))
    case JsNumber(_) =>
      var n :- AsInt(js);
      Ok(Count(n))
    case _ =>
      var rows :- DecodeTable(js);
      Ok(Select(rows))
  }

  function EncodeException(id: int, e: SqliteException, trace: Option<string>): Js {
    JsArray([Int(id), TextOrNull(trace), JsText(e.message), TextOrNull(e.explanation), Int(e.extendedCode),
             TextOrNull(e.operation), TextOrNull(e.statement),
             if e.parameters.Some? then JsArray(EncodeValues(e.parameters.value)) else JsNull])
  }

  function DecodeException(js: Js): Result<Message> {
    var items :- AsArray(js);
    if |items| < 8 then Failed
    else
      var id :- AsInt(items[0]);
      var code :- AsInt(items[4]);
      var message :- AsText(items[2]);
      var explanation :- OptionalText(items[3]);
      var statement :- OptionalText(items[6]);
      var parameters :- DecodeParameters(items[7]);
      var operation :- OptionalText(items[5]);
      var trace :- OptionalText(items[1]);
      Ok(Failure(id, Sqlite(SqliteException(message, explanation, code, None, operation, statement, parameters)),
        trace))
  }

  function DecodeParameters(js: Js): Result<Option<seq<Value>>> {
    if js.JsNull? then Ok(None)
    else
      var items :- AsArray(js);
      var values :- DecodeValues(items);
      Ok(Some(values))
  }

  // `describe` is the text of an exception; clients of protocol version 4 and up get its fields.
  function Encode(version: int, describe: SqliteException -> string, m: Message): Js
    requires m.Request? ==> m.payload.Valid()
  {
    match m
    case Request(id, payload) => JsArray([Int(0), JsCall(Int(id), EncodePayload(payload))])
    case Success(id, response) => JsArray([Int(1), JsCall(Int(id), EncodeResponse(response))])
    case Failure(id, Sqlite(e), trace) =>
      if version >= 4 then JsArray([Int(4), EncodeException(id, e, trace)])
      else JsArray([Int(2), JsArray([Int(id), JsText(describe(e)), TextOrNull(trace)])])
    case Failure(id, Described(text), trace) => JsArray([Int(2), JsArray([Int(id), JsText(text), TextOrNull(trace)])])
    case Cancelled(id) => JsArray([Int(3), Int(id)])
  }

  function Decode(js: Js): Result<Message> {
    var items :- AsArray(js);
    if |items| != 2 then Failed
    else
      var tag :- AsInt(items[0]);
      DecodeBody(tag, items[1])
  }

  function DecodeBody(tag: int, body: Js): Result<Message> {
    match tag
    case 0 =>
      if !body.JsCall? then Failed
      else
        var id :- AsInt(body.i);
        var payload :- DecodePayload(body.p);
        Ok(Request(id, payload))
    case 1 =>
      if !body.JsCall? then Failed
      else
        var id :- AsInt(body.i);
        var response :- DecodeResponse(body.p);
        Ok(Success(id, response))
    case 2 =>
      var items :- AsArray(body);
      if |items| != 3 then Failed
      else
        var id :- AsInt(items[0]);
        var text :- AsText(items[1]);
        var trace :- OptionalText(items[2]);
        Ok(Failure(id, Described(text), trace))
    case 4 => DecodeException(body)
    case 3 =>
      var id :- AsInt(body);
      Ok(Cancelled(id))
    case _ => Failed
  }

  lemma ExceptionRoundTrip(id: int, e: SqliteException, trace: Option<string>)
    ensures DecodeException(EncodeException(id, e, trace)) == Ok(Failure(id, Sqlite(e.(position := None)), trace))
  {
    hide EncodeValues, DecodeValues, Int, AsInt, OptionalText, TextOrNull;
    IntRead(id);
    IntRead(e.extendedCode);
    OptionsRead(None, trace);
    OptionsRead(None, e.explanation);
    OptionsRead(None, e.operation);
    OptionsRead(None, e.statement);
    if e.parameters.Some? { ValuesRoundTrip(e.parameters.value); }
  }

  lemma ResponseRoundTripExactly(r: Response)
    requires r.Select? ==> forall row <- r.rows :: IsRow(row)
    ensures DecodeResponse(EncodeResponse(r)) == Ok(r)
      <==> (r.Select? ==> forall row <- r.rows :: Columns(row) <= Columns(r.rows[0]))
  {
    match r
    case NoResponse =>
    case Primitive(_) =>
    case Count(n) => IntRead(n);
    case Select(rows) =>
      hide Columns, DecodeTable;
      TableRoundTripExactly(rows);
  }

  // Which messages arrive as they were sent: all but result tables whose rows disagree on their
  // columns, and exceptions that carry a position or go to an older client.
  ghost predicate Survives(version: int, m: Message) {
    match m
    case Success(_, Select(rows)) => forall row <- rows :: Columns(row) <= Columns(rows[0])
    case Failure(_, Sqlite(e), _) => version >= 4 && e.position.None?
    case _ => true
  }

  lemma MessageRoundTripExactly(version: int, describe: SqliteException -> string, m: Message)
    requires m.Valid()
    ensures Decode(Encode(version, describe, m)) == Ok(m) <==> Survives(version, m)
  {
    hide EncodePayload, DecodePayload, EncodeResponse, DecodeResponse, EncodeException, DecodeException, Columns;
    match m
    case Request(id, payload) =>
      IntRead(0); IntRead(id); PayloadRoundTrip(payload);
    case Success(id, response) =>
      IntRead(1); IntRead(id); ResponseRoundTripExactly(response);
    case Failure(id, Sqlite(e), trace) =>
      IntRead(4); IntRead(2); IntRead(id); OptionsRead(None, trace);
      ExceptionRoundTrip(id, e, trace);
    case Failure(id, Described(text), trace) =>
      IntRead(2); IntRead(id); OptionsRead(None, trace);
    case Cancelled(id) =>
      IntRead(3); IntRead(id);
  }

  // Numbers of messages: requests, successes, cancellations, and errors as text or by their fields.
  lemma MessageNumbers(version: int, describe: SqliteException -> string, m: Message)
    requires m.Valid()
    ensures var js := Encode(version, describe, m);
            && js.JsArray? && |js.items| == 2
            && js.items[0] == match m
                 case Request(_, _) => Int(0)
                 case Success(_, _) => Int(1)
                 case Failure(_, Described(_), _) => Int(2)
                 case Failure(_, Sqlite(_), _) => if version >= 4 then Int(4) else Int(2)
                 case Cancelled(_) => Int(3)
  {
    hide EncodePayload, EncodeResponse, EncodeException;
  }
}
