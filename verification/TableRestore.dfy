/** Saving rows as JSON and restoring them, with stored secrets re-encrypted when the
    two instances have different keys. The text of dates and ids and the cipher of the
    secrets are parameters. */
module TableRestore {
  import opened Wrappers
  import Base64
  import opened Octets
  import opened Sequences

  // ---- Values ---------------------------------------------------------------------------

  /** JSON: null, a string, or anything else. */
  datatype Json = JsonNull | Text(text: string) | Other(code: int)

  datatype ColumnType = Enumerated(members: set<string>) | DateTime | Date | Binary | Uuid | JsonColumn | Plain

  /** A moment is an instant in microseconds with its UTC offset, or a naive one. */
  datatype Value =
    | Null
    | Member(value: string)
    | Moment(micros: int, offset: Option<int>)
    | Day(day: int)
    | Bytes(bytes: seq<Byte>)
    | Id(id: nat)
    | Raw(json: Json)

  datatype Formats = Formats(
    isoMoment: (int, Option<int>) -> string, parseMoment: string -> Option<(int, Option<int>)>,
    isoDay: int -> string, parseDay: string -> Option<int>,
    idText: nat -> string, parseId: string -> Option<nat>)

  /** What is written is read back. */
  ghost predicate Readable(f: Formats) {
    && (forall m, o :: f.parseMoment(f.isoMoment(m, o)) == Some((m, o)))
    && (forall d :: f.parseDay(f.isoDay(d)) == Some(d))
    && (forall i: nat :: f.parseId(f.idText(i)) == Some(i))
  }

  function EncodeValue(f: Formats, v: Value): Json {
    match v
    case Null => JsonNull
    case Member(value) => Text(value)
    case Moment(micros, offset) => Text(f.isoMoment(micros, offset))
    case Day(day) => Text(f.isoDay(day))
    case Bytes(bytes) => Text(Base64.Encode(bytes))
    case Id(id) => Text(f.idText(id))
    case Raw(json) => json
  }

  /** The value for a column, or none when the JSON does not fit it. */
  function DecodeValue(f: Formats, t: ColumnType, j: Json): Option<Value> {
    if j == JsonNull then Some(Null)
    else
      match t
      case JsonColumn | Plain => Some(Raw(j))
      case _ => if j.Text? then DecodeText(f, t, j.text) else None
  }

  function DecodeText(f: Formats, t: ColumnType, text: string): Option<Value>
    requires !t.JsonColumn? && !t.Plain?
  {
    match t
    case Enumerated(members) => if text in members then Some(Member(text)) else None
    case DateTime =>
      (match f.parseMoment(text)
       case None => None
       case Some((micros, offset)) => Some(Moment(micros, if offset.Some? then Some(0) else None)))
    case Date => (match f.parseDay(text) case None => None case Some(day) => Some(Day(day)))
    case Binary => (match Base64.Decode(text) case None => None case Some(bytes) => Some(Bytes(bytes)))
    case Uuid => (match f.parseId(text) case None => None case Some(id) => Some(Id(id)))
  }

  /** The values a column can hold. */
  predicate Fits(t: ColumnType, v: Value) {
    match v
    case Null => true
    case Member(value) => t.Enumerated? && value in t.members
    case Moment(_, _) => t.DateTime?
    case Day(_) => t.Date?
    case Bytes(_) => t.Binary?
    case Id(_) => t.Uuid?
    case Raw(json) => (t.JsonColumn? || t.Plain?) && json != JsonNull
  }

  /** The same value, a moment with an offset shown in UTC. */
  function InUtc(v: Value): Value {
    if v.Moment? && v.offset.Some? then v.(offset := Some(0)) else v
  }

  lemma ValueReadBack(f: Formats, t: ColumnType, v: Value)
    requires Readable(f) && Fits(t, v)
    ensures DecodeValue(f, t, EncodeValue(f, v)) == Some(InUtc(v))
  {
    if v.Bytes? {
      Base64.DecodeEncode(v.bytes);
    }
  }

  /** Whatever JSON is loaded into a column, what comes of it is a value of the column. */
  lemma DecodedFits(f: Formats, t: ColumnType, j: Json)
    ensures DecodeValue(f, t, j).Some? ==> Fits(t, DecodeValue(f, t, j).value)
    ensures j == JsonNull || t.JsonColumn? || t.Plain? ==> DecodeValue(f, t, j).Some?
    ensures DecodeValue(f, t, j) == Some(Null) <==> j == JsonNull
  {
  }

  // ---- Rows --------------------------------------------------------------------------------

  type Columns = map<string, ColumnType>
  type Row = map<string, Value>
  type Record = map<string, Json>

  predicate EndsWith(name: string, ending: string) {
    |ending| <= |name| && name[|name| - |ending|..] == ending
  }

  predicate IsSecret(columns: Columns, name: string) {
    name in columns && columns[name].Binary? && EndsWith(name, "_encrypted")
  }

  function EncodeRow(f: Formats, row: Row): Record { map name | name in row :: EncodeValue(f, row[name]) }

  datatype Error = Malformed | Undecryptable

  datatype Loaded<+T> = Loaded(value: T) | Failed(error: Error)

  function DecodeRow(f: Formats, columns: Columns, record: Record): Loaded<Row> {
    if forall name :: name in record && name in columns ==> DecodeValue(f, columns[name], record[name]).Some?
    then Loaded(map name | name in record && name in columns :: DecodeValue(f, columns[name], record[name]).value)
    else Failed(Malformed)
  }

  /** Where a random nonce is drawn: each secret of each row has its own. */
  datatype Draw = Draw(row: nat, column: string)

  /** The cipher of stored secrets, with what was drawn as its last input. */
  datatype Cipher = Cipher(seal: (string, string, Draw) -> seq<Byte>,
                           open: (string, seq<Byte>) -> Option<string>)

  ghost predicate Opens(c: Cipher) {
    forall key, secret, draw :: c.open(key, c.seal(key, secret, draw)) == Some(secret)
  }

  datatype Keys = Keys(backup: string, instance: string)

  predicate HoldsSecret(columns: Columns, row: Row, name: string) {
    IsSecret(columns, name) && name in row && row[name].Bytes?
  }

  /** The row with every secret under the instance's key. */
  function Rekeyed(c: Cipher, columns: Columns, keys: Keys, index: nat, row: Row): Loaded<Row> {
    if forall name :: name in row && HoldsSecret(columns, row, name) ==> c.open(keys.backup, row[name].bytes).Some?
    then
      Loaded(map name | name in row ::
        if HoldsSecret(columns, row, name)
        then Bytes(c.seal(keys.instance, c.open(keys.backup, row[name].bytes).value, Draw(index, name)))
        else row[name])
    else Failed(Undecryptable)
  }

  method Rekey(c: Cipher, columns: Columns, keys: Keys, index: nat, row: Row) returns (rekeyed: Loaded<Row>)
    ensures rekeyed == Rekeyed(c, columns, keys, index, row)
  {
    var result := row;
    var secrets := set name | name in columns && IsSecret(columns, name);
    var rest := secrets;
    while rest != {}
      invariant rest <= secrets && result.Keys == row.Keys
      invariant forall name :: name in row ==>
                  if HoldsSecret(columns, row, name) && name !in rest then
                    c.open(keys.backup, row[name].bytes).Some? &&
                    result[name] ==
                    Bytes(c.seal(keys.instance, c.open(keys.backup, row[name].bytes).value, Draw(index, name)))
                  else result[name] == row[name]
    {
      var name :| name in rest;
      rest := rest - {name};
      if name in result && result[name].Bytes? {
        var secret := c.open(keys.backup, result[name].bytes);
        if secret.None? {
          assert HoldsSecret(columns, row, name);
          return Failed(Undecryptable);
        }
        result := result[name := Bytes(c.seal(keys.instance, secret.value, Draw(index, name)))];
      }
    }
    forall name | name in row && HoldsSecret(columns, row, name)
      ensures c.open(keys.backup, row[name].bytes).Some?
    {
      assert name !in rest;
    }
    assert result == Rekeyed(c, columns, keys, index, row).value;
    rekeyed := Loaded(result);
  }

  function LoadRow(f: Formats, c: Cipher, columns: Columns, keys: Option<Keys>, index: nat,
                   record: Record): Loaded<Row> {
    match DecodeRow(f, columns, record)
    case Failed(error) => Failed(error)
    case Loaded(row) => if keys.Some? then Rekeyed(c, columns, keys.value, index, row) else Loaded(row)
  }

  /** Loading goes on row by row. */
  function Then<T>(earlier: Loaded<seq<T>>, one: Loaded<T>): Loaded<seq<T>> {
    match (earlier, one)
    case (Failed(error), _) => Failed(error)
    case (Loaded(_), Failed(error)) => Failed(error)
    case (Loaded(rows), Loaded(row)) => Loaded(rows + [row])
  }

  /** All rows of a table, or the first error. */
  function LoadRows(f: Formats, c: Cipher, columns: Columns, keys: Option<Keys>,
                    records: seq<Record>): Loaded<seq<Row>>
  {
    if records == [] then Loaded([])
    else
      var last := |records| - 1;
      Then(LoadRows(f, c, columns, keys, records[..last]), LoadRow(f, c, columns, keys, last, records[last]))
  }

  // ---- Loading a table in batches -------------------------------------------------------------

  const INSERT_BATCH := 500

  /** Full batches, but for the last one, which is not empty. */
  predicate InBatches<T>(batches: seq<seq<T>>) {
    forall i :: 0 <= i < |batches| ==>
      0 < |batches[i]| <= INSERT_BATCH && (i + 1 < |batches| ==> |batches[i]| == INSERT_BATCH)
  }

  /** The next row of a table, decoded and re-encrypted. */
  method NextRow(f: Formats, c: Cipher, columns: Columns, keys: Option<Keys>, index: nat, record: Record)
    returns (row: Loaded<Row>)
    ensures row == LoadRow(f, c, columns, keys, index, record)
  {
    row := DecodeRow(f, columns, record);
    if row.Loaded? && keys.Some? {
      row := Rekey(c, columns, keys.value, index, row.value);
    }
  }

  lemma LoadOneMore(f: Formats, c: Cipher, columns: Columns, keys: Option<Keys>, records: seq<Record>, i: nat)
    requires i < |records|
    ensures LoadRows(f, c, columns, keys, records[..i + 1]) ==
            Then(LoadRows(f, c, columns, keys, records[..i]), LoadRow(f, c, columns, keys, i, records[i]))
  {
    assert records[..i + 1][..i] == records[..i];
  }

  /** The inserts that load a table, in order. */
  method LoadTable(f: Formats, c: Cipher, columns: Columns, keys: Option<Keys>, records: seq<Record>)
    returns (error: Option<Error>, batches: seq<seq<Row>>)
    ensures var all := LoadRows(f, c, columns, keys, records);
            && (error.Some? <==> all.Failed?) && (error.Some? ==> error.value == all.error)
            && (error.None? ==> Flatten(batches) == all.value && InBatches(batches))
  {
    batches := [];
    var batch: seq<Row> := [];
    assert records[..0] == [] && Flatten(batches) + batch == [];
    for i := 0 to |records|
      invariant LoadRows(f, c, columns, keys, records[..i]) == Loaded(Flatten(batches) + batch)
      invariant |batch| < INSERT_BATCH && forall k :: 0 <= k < |batches| ==> |batches[k]| == INSERT_BATCH
    {
      LoadOneMore(f, c, columns, keys, records, i);
      var row := NextRow(f, c, columns, keys, i, records[i]);
      if row.Failed? {
        StaysFailed(f, c, columns, keys, records, i + 1);
        return Some(row.error), batches;
      }
      assert Flatten(batches) + (batch + [row.value]) == (Flatten(batches) + batch) + [row.value];
      batch := batch + [row.value];
      if |batch| >= INSERT_BATCH {
        FlattenSnoc(batches, batch);
        batches, batch := batches + [batch], [];
        assert Flatten(batches) + batch == Flatten(batches);
      }
    }
    assert records[..|records|] == records;
    if batch != [] {
      FlattenSnoc(batches, batch);
      batches := batches + [batch];
    } else {
      assert Flatten(batches) + batch == Flatten(batches);
    }
    error := None;
  }

  lemma {:induction false} StaysFailed(f: Formats, c: Cipher, columns: Columns, keys: Option<Keys>,
                                       records: seq<Record>, k: nat)
    requires k <= |records| && LoadRows(f, c, columns, keys, records[..k]).Failed?
    ensures LoadRows(f, c, columns, keys, records) == LoadRows(f, c, columns, keys, records[..k])
  {
    if k < |records| {
      var before := records[..|records| - 1];
      assert before[..k] == records[..k];
      StaysFailed(f, c, columns, keys, before, k);
    } else {
      assert records[..k] == records;
    }
  }

  // ---- What a restore gives back ----------------------------------------------------------------

  predicate FitsTable(columns: Columns, row: Row) {
    row.Keys == columns.Keys && forall name :: name in row ==> Fits(columns[name], row[name])
  }

  /** Every secret opens under the key. */
  predicate Openable(c: Cipher, columns: Columns, key: string, row: Row) {
    forall name :: name in row && HoldsSecret(columns, row, name) ==> c.open(key, row[name].bytes).Some?
  }

  /** The row restored for `row`: the same values, and the same secrets behind the key
      of the instance. */
  predicate Restores(c: Cipher, columns: Columns, keys: Option<Keys>, row: Row, restored: Row) {
    && restored.Keys == row.Keys
    && forall name :: name in row ==>
         if keys.Some? && HoldsSecret(columns, row, name) then
           && restored[name].Bytes?
           && c.open(keys.value.instance, restored[name].bytes) == c.open(keys.value.backup, row[name].bytes)
         else restored[name] == InUtc(row[name])
  }

  function RowInUtc(row: Row): Row { map name | name in row :: InUtc(row[name]) }

  lemma RowReadBack(f: Formats, columns: Columns, row: Row)
    requires Readable(f) && FitsTable(columns, row)
    ensures DecodeRow(f, columns, EncodeRow(f, row)) == Loaded(RowInUtc(row))
  {
    forall name | name in row
      ensures DecodeValue(f, columns[name], EncodeRow(f, row)[name]) == Some(InUtc(row[name]))
    {
      ValueReadBack(f, columns[name], row[name]);
    }
    var decoded := DecodeRow(f, columns, EncodeRow(f, row));
    assert decoded.Loaded? && decoded.value == RowInUtc(row);
  }

  /** Showing moments in UTC leaves the secrets as they are. */
  lemma SecretsStay(columns: Columns, row: Row, name: string)
    requires name in row
    ensures HoldsSecret(columns, RowInUtc(row), name) <==> HoldsSecret(columns, row, name)
    ensures HoldsSecret(columns, row, name) ==> RowInUtc(row)[name] == row[name]
  {
  }

  lemma RekeyRestores(c: Cipher, columns: Columns, keys: Keys, index: nat, row: Row)
    requires Opens(c)
    ensures var loaded := Rekeyed(c, columns, keys, index, RowInUtc(row));
            if Openable(c, columns, keys.backup, row)
            then loaded.Loaded? && Restores(c, columns, Some(keys), row, loaded.value)
            else loaded == Failed(Undecryptable)
  {
    forall name | name in row
      ensures HoldsSecret(columns, RowInUtc(row), name) <==> HoldsSecret(columns, row, name)
      ensures HoldsSecret(columns, row, name) ==> RowInUtc(row)[name] == row[name]
    {
      SecretsStay(columns, row, name);
    }
  }

  lemma {:induction false} RowRestored(f: Formats, c: Cipher, columns: Columns, keys: Option<Keys>, index: nat,
                                       row: Row)
    requires Readable(f) && Opens(c) && FitsTable(columns, row)
    ensures var loaded := LoadRow(f, c, columns, keys, index, EncodeRow(f, row));
            if keys.Some? && !Openable(c, columns, keys.value.backup, row) then loaded == Failed(Undecryptable)
            else loaded.Loaded? && Restores(c, columns, keys, row, loaded.value)
  {
    RowReadBack(f, columns, row);
    if keys.Some? {
      RekeyRestores(c, columns, keys.value, index, row);
    }
  }

  function EncodeRows(f: Formats, rows: seq<Row>): seq<Record> {
    if rows == [] then []
    else EncodeRows(f, rows[..|rows| - 1]) + [EncodeRow(f, rows[|rows| - 1])]
  }

  predicate AllFit(columns: Columns, rows: seq<Row>) {
    forall i :: 0 <= i < |rows| ==> FitsTable(columns, rows[i])
  }

  predicate AllOpenable(c: Cipher, columns: Columns, key: string, rows: seq<Row>) {
    forall i :: 0 <= i < |rows| ==> Openable(c, columns, key, rows[i])
  }

  predicate AllRestore(c: Cipher, columns: Columns, keys: Option<Keys>, rows: seq<Row>, restored: seq<Row>) {
    |restored| == |rows| && forall i :: 0 <= i < |rows| ==> Restores(c, columns, keys, rows[i], restored[i])
  }

  lemma EncodedLast(f: Formats, c: Cipher, columns: Columns, keys: Option<Keys>, before: seq<Row>, row: Row)
    ensures LoadRows(f, c, columns, keys, EncodeRows(f, before + [row])) ==
            Then(LoadRows(f, c, columns, keys, EncodeRows(f, before)),
                 LoadRow(f, c, columns, keys, |before|, EncodeRow(f, row)))
  {
    EncodedCount(f, before);
    assert (before + [row])[..|before|] == before;
    var earlier, one := EncodeRows(f, before), EncodeRow(f, row);
    assert (earlier + [one])[..|before|] == earlier;
  }

  /** Saving a table and loading it gives back its rows in order, secrets readable with
      the instance's key: exactly unless some secret does not open with the key the
      backup carries. */
  lemma {:induction false} TableRestored(f: Formats, c: Cipher, columns: Columns, keys: Option<Keys>, rows: seq<Row>)
    requires Readable(f) && Opens(c) && AllFit(columns, rows)
    ensures var loaded := LoadRows(f, c, columns, keys, EncodeRows(f, rows));
            && (loaded.Loaded? <==> keys.None? || AllOpenable(c, columns, keys.value.backup, rows))
            && (if loaded.Loaded? then AllRestore(c, columns, keys, rows, loaded.value)
                else loaded.error == Undecryptable)
  {
    if rows != [] {
      var before, row := rows[..|rows| - 1], rows[|rows| - 1];
      assert before + [row] == rows;
      TableRestored(f, c, columns, keys, before);
      RowRestored(f, c, columns, keys, |before|, row);
      EncodedLast(f, c, columns, keys, before, row);
      if keys.Some? {
        OneMoreOpenable(c, columns, keys.value.backup, before, row);
      }
      var earlier := LoadRows(f, c, columns, keys, EncodeRows(f, before));
      var one := LoadRow(f, c, columns, keys, |before|, EncodeRow(f, row));
      if earlier.Loaded? && one.Loaded? {
        OneMoreRestored(c, columns, keys, before, row, earlier.value, one.value);
      }
    }
  }

  lemma OneMoreRestored(c: Cipher, columns: Columns, keys: Option<Keys>, before: seq<Row>, row: Row,
                        restored: seq<Row>, one: Row)
    requires AllRestore(c, columns, keys, before, restored) && Restores(c, columns, keys, row, one)
    ensures AllRestore(c, columns, keys, before + [row], restored + [one])
  {
  }

  lemma {:induction false} EncodedCount(f: Formats, rows: seq<Row>)
    ensures |EncodeRows(f, rows)| == |rows|
  {
    if rows != [] {
      EncodedCount(f, rows[..|rows| - 1]);
    }
  }

  lemma OneMoreOpenable(c: Cipher, columns: Columns, key: string, before: seq<Row>, row: Row)
    ensures AllOpenable(c, columns, key, before + [row]) <==>
              AllOpenable(c, columns, key, before) && Openable(c, columns, key, row)
  {
    var rows := before + [row];
    assert rows[|before|] == row;
    assert forall i :: 0 <= i < |before| ==> rows[i] == before[i];
  }

  // ---- Which columns are secrets ------------------------------------------------------------------

  /** The row holds a stored secret: bytes in the column `stem` followed by "_encrypted". */
  predicate SecretAt(columns: Columns, row: Row, stem: string) {
    var name := stem + "_encrypted";
    name in columns && columns[name].Binary? && name in row && row[name].Bytes?
  }

  lemma SecretsAreNamed(columns: Columns, row: Row, name: string)
    ensures HoldsSecret(columns, row, name) <==>
              exists stem :: name == stem + "_encrypted" && SecretAt(columns, row, stem)
  {
    if HoldsSecret(columns, row, name) {
      var stem := name[..|name| - |"_encrypted"|];
      assert name == stem + "_encrypted" && SecretAt(columns, row, stem);
    }
  }

  /** A secret of a restored row opens with the instance's key to what it opened to with the
      backup's. */
  lemma SecretRestored(f: Formats, c: Cipher, columns: Columns, keys: Keys, rows: seq<Row>, i: nat, stem: string)
    requires Readable(f) && Opens(c) && AllFit(columns, rows) && i < |rows| && SecretAt(columns, rows[i], stem)
    requires LoadRows(f, c, columns, Some(keys), EncodeRows(f, rows)).Loaded?
    ensures var loaded, name := LoadRows(f, c, columns, Some(keys), EncodeRows(f, rows)).value, stem + "_encrypted";
            && |loaded| == |rows| && name in loaded[i] && loaded[i][name].Bytes?
            && c.open(keys.backup, rows[i][name].bytes).Some?
            && c.open(keys.instance, loaded[i][name].bytes) == c.open(keys.backup, rows[i][name].bytes)
  {
    TableRestored(f, c, columns, Some(keys), rows);
    SecretsAreNamed(columns, rows[i], stem + "_encrypted");
    assert Openable(c, columns, keys.backup, rows[i]);
  }

  /** Whatever is no secret, by its name, by its type or because it is empty, and everything
      when the keys are the same, is restored as it was saved. */
  lemma OthersRestored(f: Formats, c: Cipher, columns: Columns, keys: Option<Keys>, rows: seq<Row>, i: nat,
                       name: string)
    requires Readable(f) && Opens(c) && AllFit(columns, rows) && i < |rows| && name in rows[i]
    requires keys.None? || forall stem :: name == stem + "_encrypted" ==> !SecretAt(columns, rows[i], stem)
    requires LoadRows(f, c, columns, keys, EncodeRows(f, rows)).Loaded?
    ensures var loaded := LoadRows(f, c, columns, keys, EncodeRows(f, rows)).value;
            |loaded| == |rows| && name in loaded[i] && loaded[i][name] == InUtc(rows[i][name])
  {
    TableRestored(f, c, columns, keys, rows);
    SecretsAreNamed(columns, rows[i], name);
  }

  /** With two keys the load fails exactly when a secret does not open with the backup's. */
  lemma LoadFails(f: Formats, c: Cipher, columns: Columns, keys: Keys, rows: seq<Row>)
    requires Readable(f) && Opens(c) && AllFit(columns, rows)
    ensures LoadRows(f, c, columns, Some(keys), EncodeRows(f, rows)).Failed? <==>
              exists i: nat, stem :: i < |rows| && SecretAt(columns, rows[i], stem) &&
                                     c.open(keys.backup, rows[i][stem + "_encrypted"].bytes).None?
  {
    TableRestored(f, c, columns, Some(keys), rows);
    forall i: nat, stem | i < |rows| && SecretAt(columns, rows[i], stem)
      ensures HoldsSecret(columns, rows[i], stem + "_encrypted")
    {
      SecretsAreNamed(columns, rows[i], stem + "_encrypted");
    }
    if !AllOpenable(c, columns, keys.backup, rows) {
      var i :| 0 <= i < |rows| && !Openable(c, columns, keys.backup, rows[i]);
      var name :| name in rows[i] && HoldsSecret(columns, rows[i], name)
                  && c.open(keys.backup, rows[i][name].bytes).None?;
      SecretsAreNamed(columns, rows[i], name);
      var stem :| name == stem + "_encrypted" && SecretAt(columns, rows[i], stem);
    } else {
      forall i: nat, stem | i < |rows| && SecretAt(columns, rows[i], stem)
        ensures c.open(keys.backup, rows[i][stem + "_encrypted"].bytes).Some?
      {
        assert Openable(c, columns, keys.backup, rows[i]);
      }
    }
  }

  /** The keys a restore needs: none when the backup carries no key, or the instance's. */
  function KeysFor(carried: string, instance: string): Option<Keys> {
    if carried != "" && carried != instance then Some(Keys(carried, instance)) else None
  }

  /** So an instance reads every secret of a backup that carries its key, be it the same key
      or another. */
  lemma InstanceReads(f: Formats, c: Cipher, columns: Columns, carried: string, instance: string, rows: seq<Row>,
                      i: nat, stem: string)
    requires Readable(f) && Opens(c) && AllFit(columns, rows) && i < |rows| && SecretAt(columns, rows[i], stem)
    requires carried != "" && LoadRows(f, c, columns, KeysFor(carried, instance), EncodeRows(f, rows)).Loaded?
    ensures var loaded := LoadRows(f, c, columns, KeysFor(carried, instance), EncodeRows(f, rows)).value;
            var name := stem + "_encrypted";
            && |loaded| == |rows| && name in loaded[i] && loaded[i][name].Bytes?
            && c.open(instance, loaded[i][name].bytes) == c.open(carried, rows[i][name].bytes)
  {
    if carried != instance {
      SecretRestored(f, c, columns, Keys(carried, instance), rows, i, stem);
    } else {
      OthersRestored(f, c, columns, None, rows, i, stem + "_encrypted");
    }
  }

  /** Columns the table does not have are left out, and change nothing else. */
  lemma UnknownColumns(f: Formats, columns: Columns, record: Record, unknown: Record)
    requires unknown.Keys !! columns.Keys
    ensures DecodeRow(f, columns, record + unknown) == DecodeRow(f, columns, record)
  {
    assert forall name :: name in columns && name in record + unknown ==>
             name in record && (record + unknown)[name] == record[name];
    var with, without := DecodeRow(f, columns, record + unknown), DecodeRow(f, columns, record);
    assert with.Loaded? ==> with.value == without.value;
  }
}
