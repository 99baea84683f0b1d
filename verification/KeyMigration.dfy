/** The one-time move of institution keys from encrypted DB columns to Vault, with a failure or a crash
    possible at every call. */
module KeyMigration {
  import opened Wrappers
  import opened TextCodec
  import opened Keys

  datatype Row = Row(id: string, cols: Option<Columns>)

  datatype Store = Store(rows: seq<Row>, vault: map<string, VaultPayload>)

  /** Decryption of a row's columns under the configured key, `DecryptKey(a, kek, _)`. */
  type Decrypt = Columns -> Result<seq<byte>, KeyError>

  /** What goes wrong while one row is handled. A write that raises may have reached Vault, a clearing
      that raises may have been committed. */
  datatype Fault = NoFault | CheckRaises | WriteRaises(stored: bool) | ClearRaises(applied: bool)

  datatype Outcome = Migrated | Skipped | Failed

  // ------------------------------------------------------------ single calls

  function ReadKey(vault: map<string, VaultPayload>, id: string): Result<seq<byte>, KeyError> {
    if id == "" then Err(BadIdentity) else if id !in vault then Err(NotFound) else VaultRead(vault[id])
  }

  function WriteKey(st: Store, id: string, key: seq<byte>): Store {
    st.(vault := st.vault[id := VaultWrite(key)])
  }

  /** The clearing UPDATE: every row with this institution id. */
  function Clear(st: Store, id: string): Store {
    st.(rows := seq(|st.rows|, i requires 0 <= i < |st.rows| =>
                  if st.rows[i].id == id then st.rows[i].(cols := None) else st.rows[i]))
  }

  lemma ReadAfterWrite(st: Store, id: string, key: seq<byte>, other: string)
    requires id != ""
    ensures ReadKey(WriteKey(st, id, key).vault, other) == if other == id then Ok(key) else ReadKey(st.vault, other)
  {
    FromHexToHex(key);
  }

  // ------------------------------------------------------------ one row, one run

  /** The stores seen while a row of the snapshot is handled, the last one being the one left behind. */
  function RowStates(decrypt: Decrypt, st: Store, row: Row, f: Fault, dryRun: bool): seq<Store> {
    if RowSkipsWrite(decrypt, st, row, f, dryRun) then [st]
    else
      var written := WriteKey(st, row.id, decrypt(row.cols.value).value);
      if f.WriteRaises? then (if f.stored then [written] else [st])
      else if f.ClearRaises? && !f.applied then [written]
      else [written, Clear(written, row.id)]
  }

  /** The branches that leave the loop body before the Vault write. */
  predicate RowSkipsWrite(decrypt: Decrypt, st: Store, row: Row, f: Fault, dryRun: bool) {
    f.CheckRaises? || ReadKey(st.vault, row.id) != Err(NotFound) || row.cols.None? || decrypt(row.cols.value).Err? || dryRun
  }

  function RowOutcome(decrypt: Decrypt, st: Store, row: Row, f: Fault, dryRun: bool): Outcome {
    if f.CheckRaises? then Failed
    else
      match ReadKey(st.vault, row.id)
      case Ok(_) => Skipped
      case Err(e) =>
        if e != NotFound || row.cols.None? || decrypt(row.cols.value).Err? then Failed
        else if dryRun then Skipped
        else if f.NoFault? then Migrated
        else Failed
  }

  function Last(states: seq<Store>): Store
    requires states != []
  {
    states[|states| - 1]
  }

  /** Every store seen during the loop, in order; a crash leaves one of them. */
  function Trace(decrypt: Decrypt, st: Store, rows: seq<Row>, faults: seq<Fault>, dryRun: bool): seq<Store>
    requires |faults| == |rows|
    ensures |Trace(decrypt, st, rows, faults, dryRun)| > 0
  {
    if rows == [] then [st]
    else
      var n := |rows| - 1;
      var before := Trace(decrypt, st, rows[..n], faults[..n], dryRun);
      before + RowStates(decrypt, Last(before), rows[n], faults[n], dryRun)
  }

  /** The rows the script selects. */
  function Selected(rows: seq<Row>): seq<Row> {
    if rows == [] then []
    else Selected(rows[..|rows| - 1]) + (if rows[|rows| - 1].cols.Some? then [rows[|rows| - 1]] else [])
  }

  function Script(decrypt: Decrypt, st: Store, faults: seq<Fault>, dryRun: bool): seq<Store>
    requires |faults| == |Selected(st.rows)|
  {
    Trace(decrypt, st, Selected(st.rows), faults, dryRun)
  }

  lemma {:induction false} SelectedRows(rows: seq<Row>)
    ensures forall r :: r in Selected(rows) <==> r in rows && r.cols.Some?
  {
    if rows != [] {
      SelectedRows(rows[..|rows| - 1]);
      assert rows == rows[..|rows| - 1] + [rows[|rows| - 1]];
    }
  }

  /** Increasing places of the selected rows, which leave out no row with a key. */
  ghost predicate Places(rows: seq<Row>, selected: seq<Row>, places: seq<nat>) {
    && |places| == |selected|
    && (forall k :: 0 <= k < |places| ==> places[k] < |rows| && rows[places[k]] == selected[k])
    && (forall j, k :: 0 <= j < k < |places| ==> places[j] < places[k])
    && (forall i :: 0 <= i < |rows| && rows[i].cols.Some? ==> i in places)
  }

  lemma PlacesKept(rows: seq<Row>, selected: seq<Row>, places: seq<nat>, r: Row)
    requires Places(rows, selected, places) && r.cols.None?
    ensures Places(rows + [r], selected, places)
  {
  }

  lemma PlacesAppend(rows: seq<Row>, selected: seq<Row>, places: seq<nat>, r: Row)
    requires Places(rows, selected, places)
    ensures Places(rows + [r], selected + [r], places + [|rows|])
  {
    var places' := places + [|rows|];
    assert places'[|places|] == |rows|;
    forall i | 0 <= i < |rows + [r]| && (rows + [r])[i].cols.Some?
      ensures i in places'
    {
      if i < |rows| {
        assert rows[i].cols.Some?;
      }
    }
  }

  /** The selection keeps the order of the rows. */
  lemma {:induction false} SelectedInOrder(rows: seq<Row>) returns (places: seq<nat>)
    ensures Places(rows, Selected(rows), places)
  {
    if rows == [] {
      places := [];
    } else {
      var n := |rows| - 1;
      places := SelectedInOrder(rows[..n]);
      assert rows == rows[..n] + [rows[n]];
      if rows[n].cols.Some? {
        PlacesAppend(rows[..n], Selected(rows[..n]), places, rows[n]);
        places := places + [n];
      } else {
        PlacesKept(rows[..n], Selected(rows[..n]), places, rows[n]);
        assert Selected(rows) == Selected(rows[..n]) + [] == Selected(rows[..n]);
      }
    }
  }

  // ------------------------------------------------------------ what a run may do to a key

  /** The key of row i is still there: in its columns, or readable in Vault. */
  ghost predicate KeptAt(decrypt: Decrypt, was: Store, now: Store, i: nat)
    requires i < |was.rows| == |now.rows|
  {
    was.rows[i].cols.Some? ==>
      || now.rows[i].cols == was.rows[i].cols
      || (decrypt(was.rows[i].cols.value).Ok? && ReadKey(now.vault, was.rows[i].id) == decrypt(was.rows[i].cols.value))
  }

  ghost predicate Kept(decrypt: Decrypt, was: Store, now: Store) {
    |now.rows| == |was.rows| && forall i :: 0 <= i < |was.rows| ==> KeptAt(decrypt, was, now, i)
  }

  /** An entry that counts as present is never overwritten, and rows with such an id keep their columns. */
  ghost predicate VaultStands(was: Store, now: Store) {
    && |now.rows| == |was.rows|
    && (forall id :: id in was.vault && ReadKey(was.vault, id) != Err(NotFound) ==>
          id in now.vault && now.vault[id] == was.vault[id])
    && (forall i :: 0 <= i < |was.rows| && ReadKey(was.vault, was.rows[i].id) != Err(NotFound) ==>
          now.rows[i].cols == was.rows[i].cols)
  }

  ghost predicate RowsShrink(was: Store, now: Store) {
    && |now.rows| == |was.rows|
    && forall i :: 0 <= i < |was.rows| ==>
         now.rows[i].id == was.rows[i].id && (now.rows[i].cols == was.rows[i].cols || now.rows[i].cols == None)
  }

  /** Key-bearing rows that share an id which Vault cannot read agree on a key, as soon as one decrypts. */
  ghost predicate Agreeing(decrypt: Decrypt, st: Store) {
    forall i, j :: 0 <= i < |st.rows| && 0 <= j < |st.rows| ==> AgreeAt(decrypt, st, i, j)
  }

  ghost predicate AgreeAt(decrypt: Decrypt, st: Store, i: nat, j: nat)
    requires i < |st.rows| && j < |st.rows|
  {
    var r, q := st.rows[i], st.rows[j];
    r.id == q.id && r.cols.Some? && q.cols.Some? && ReadKey(st.vault, r.id) == Err(NotFound) && decrypt(q.cols.value).Ok? ==>
      decrypt(r.cols.value) == decrypt(q.cols.value)
  }

  ghost predicate Stands(was: Store, now: Store) {
    VaultStands(was, now) && RowsShrink(was, now)
  }

  lemma RowStands(decrypt: Decrypt, was: Store, now: Store, row: Row, f: Fault, dryRun: bool)
    requires Stands(was, now)
    ensures forall st :: st in RowStates(decrypt, now, row, f, dryRun) ==> Stands(was, st)
  {
    if !RowSkipsWrite(decrypt, now, row, f, dryRun) {
      var written := WriteKey(now, row.id, decrypt(row.cols.value).value);
      assert Stands(was, written);
      assert ReadKey(was.vault, row.id) == Err(NotFound);
      assert Stands(was, Clear(written, row.id));
    }
  }

  lemma {:induction false} TraceStands(decrypt: Decrypt, was: Store, now: Store, rows: seq<Row>, faults: seq<Fault>, dryRun: bool)
    requires |faults| == |rows| && Stands(was, now)
    ensures forall st :: st in Trace(decrypt, now, rows, faults, dryRun) ==> Stands(was, st)
    decreases |rows|
  {
    if rows != [] {
      var n := |rows| - 1;
      TraceStands(decrypt, was, now, rows[..n], faults[..n], dryRun);
      RowStands(decrypt, was, Last(Trace(decrypt, now, rows[..n], faults[..n], dryRun)), rows[n], faults[n], dryRun);
    }
  }

  /** A row of the snapshot, with the key it was read with. */
  ghost predicate FromSnapshot(was: Store, row: Row) {
    row in was.rows && row.cols.Some?
  }

  ghost predicate Safe(decrypt: Decrypt, was: Store, now: Store) {
    Kept(decrypt, was, now) && Stands(was, now)
  }

  lemma WriteKeeps(decrypt: Decrypt, was: Store, now: Store, id: string, key: seq<byte>)
    requires Kept(decrypt, was, now) && ReadKey(now.vault, id) == Err(NotFound)
    ensures Kept(decrypt, was, WriteKey(now, id, key))
  {
    var written := WriteKey(now, id, key);
    forall i | 0 <= i < |was.rows|
      ensures KeptAt(decrypt, was, written, i)
    {
      assert KeptAt(decrypt, was, now, i);
      ReadAfterWrite(now, id, key, was.rows[i].id);
    }
  }

  lemma ClearKeeps(decrypt: Decrypt, was: Store, now: Store, row: Row)
    requires Agreeing(decrypt, was) && Kept(decrypt, was, now) && RowsShrink(was, now) && FromSnapshot(was, row)
    requires ReadKey(was.vault, row.id) == Err(NotFound)
    requires decrypt(row.cols.value).Ok? && ReadKey(now.vault, row.id) == decrypt(row.cols.value)
    ensures Kept(decrypt, was, Clear(now, row.id))
  {
    var cleared := Clear(now, row.id);
    var j :| 0 <= j < |was.rows| && was.rows[j] == row;
    forall i | 0 <= i < |was.rows|
      ensures KeptAt(decrypt, was, cleared, i)
    {
      assert AgreeAt(decrypt, was, i, j);
      assert KeptAt(decrypt, was, now, i);
    }
  }

  lemma RowKeeps(decrypt: Decrypt, was: Store, now: Store, row: Row, f: Fault, dryRun: bool)
    requires Agreeing(decrypt, was) && Safe(decrypt, was, now) && FromSnapshot(was, row)
    ensures forall st :: st in RowStates(decrypt, now, row, f, dryRun) ==> Safe(decrypt, was, st)
  {
    RowStands(decrypt, was, now, row, f, dryRun);
    if !RowSkipsWrite(decrypt, now, row, f, dryRun) {
      var key := decrypt(row.cols.value).value;
      WriteKeeps(decrypt, was, now, row.id, key);
      ReadAfterWrite(now, row.id, key, row.id);
      ClearKeeps(decrypt, was, WriteKey(now, row.id, key), row);
    }
  }

  lemma {:induction false} TraceKeeps(decrypt: Decrypt, was: Store, now: Store, rows: seq<Row>, faults: seq<Fault>, dryRun: bool)
    requires |faults| == |rows| && Agreeing(decrypt, was) && Safe(decrypt, was, now)
    requires forall r :: r in rows ==> FromSnapshot(was, r)
    ensures forall st :: st in Trace(decrypt, now, rows, faults, dryRun) ==> Safe(decrypt, was, st)
    decreases |rows|
  {
    if rows != [] {
      var n := |rows| - 1;
      TraceKeeps(decrypt, was, now, rows[..n], faults[..n], dryRun);
      RowKeeps(decrypt, was, Last(Trace(decrypt, now, rows[..n], faults[..n], dryRun)), rows[n], faults[n], dryRun);
    }
  }

  // ------------------------------------------------------------ any number of runs

  /** One start of the script, stopped after `stop` of its stores. */
  datatype Attempt = Attempt(faults: seq<Fault>, dryRun: bool, stop: nat)

  predicate Possible(decrypt: Decrypt, st: Store, t: Attempt) {
    |t.faults| == |Selected(st.rows)| && t.stop < |Script(decrypt, st, t.faults, t.dryRun)|
  }

  predicate AllPossible(decrypt: Decrypt, st: Store, ts: seq<Attempt>)
    decreases |ts|
  {
    ts == [] || (Possible(decrypt, st, ts[0]) && AllPossible(decrypt, After(decrypt, st, ts[0]), ts[1..]))
  }

  function After(decrypt: Decrypt, st: Store, t: Attempt): Store
    requires Possible(decrypt, st, t)
  {
    Script(decrypt, st, t.faults, t.dryRun)[t.stop]
  }

  function AfterAll(decrypt: Decrypt, st: Store, ts: seq<Attempt>): Store
    requires AllPossible(decrypt, st, ts)
    decreases |ts|
  {
    if ts == [] then st else AfterAll(decrypt, After(decrypt, st, ts[0]), ts[1..])
  }

  lemma SelectedFromSnapshot(was: Store, mid: Store)
    requires RowsShrink(was, mid)
    ensures forall r :: r in Selected(mid.rows) ==> FromSnapshot(was, r)
  {
    SelectedRows(mid.rows);
    forall r | r in Selected(mid.rows)
      ensures FromSnapshot(was, r)
    {
      var i :| 0 <= i < |mid.rows| && mid.rows[i] == r;
      assert was.rows[i] == r;
    }
  }

  lemma {:induction false} AttemptsStand(decrypt: Decrypt, was: Store, now: Store, ts: seq<Attempt>)
    requires Stands(was, now) && AllPossible(decrypt, now, ts)
    ensures Stands(was, AfterAll(decrypt, now, ts))
    decreases |ts|
  {
    if ts != [] {
      TraceStands(decrypt, was, now, Selected(now.rows), ts[0].faults, ts[0].dryRun);
      AttemptsStand(decrypt, was, After(decrypt, now, ts[0]), ts[1..]);
    }
  }

  lemma {:induction false} AttemptsKeep(decrypt: Decrypt, was: Store, now: Store, ts: seq<Attempt>)
    requires Agreeing(decrypt, was) && Safe(decrypt, was, now) && AllPossible(decrypt, now, ts)
    ensures Safe(decrypt, was, AfterAll(decrypt, now, ts))
    decreases |ts|
  {
    if ts != [] {
      SelectedFromSnapshot(was, now);
      TraceKeeps(decrypt, was, now, Selected(now.rows), ts[0].faults, ts[0].dryRun);
      AttemptsKeep(decrypt, was, After(decrypt, now, ts[0]), ts[1..]);
    }
  }

  // ------------------------------------------------------------ main results

  /** Over any number of starts, each stopped at any point and with any failures, whatever Vault had is
      never overwritten, and the columns of rows whose key is already in Vault stay. So a key whose clearing
      failed once is never cleared by a later start: the retry that is promised does not happen. */
  lemma VaultIsNeverOverwritten(decrypt: Decrypt, st: Store, ts: seq<Attempt>)
    requires AllPossible(decrypt, st, ts)
    ensures VaultStands(st, AfterAll(decrypt, st, ts)) && RowsShrink(st, AfterAll(decrypt, st, ts))
  {
    AttemptsStand(decrypt, st, st, ts);
  }

  lemma {:induction false} OneRowOnly(decrypt: Decrypt, st: Store, rows: seq<Row>, faults: seq<Fault>, p: nat)
    requires |faults| == |rows| && forall k :: 0 <= k < |rows| ==> faults[k] == if k == p then NoFault else CheckRaises
    requires p < |rows| ==> !RowSkipsWrite(decrypt, st, rows[p], NoFault, false)
    ensures Last(Trace(decrypt, st, rows, faults, false)) ==
            if p < |rows| then Clear(WriteKey(st, rows[p].id, decrypt(rows[p].cols.value).value), rows[p].id) else st
    decreases |rows|
  {
    if rows != [] {
      OneRowOnly(decrypt, st, rows[..|rows| - 1], faults[..|rows| - 1], p);
    }
  }

  /** Two key-bearing rows with one id and different keys: the other one's key can be lost. */
  lemma LosingAttempt(decrypt: Decrypt, st: Store, i: nat, j: nat) returns (ts: seq<Attempt>)
    requires i < |st.rows| && j < |st.rows| && !AgreeAt(decrypt, st, i, j)
    ensures AllPossible(decrypt, st, ts) && !Kept(decrypt, st, AfterAll(decrypt, st, ts))
  {
    SelectedRows(st.rows);
    var rows, row := Selected(st.rows), st.rows[j];
    assert row in rows;
    var p :| 0 <= p < |rows| && rows[p] == row;
    var faults := seq(|rows|, k => if k == p then NoFault else CheckRaises);
    OneRowOnly(decrypt, st, rows, faults, p);
    var t := Attempt(faults, false, |Script(decrypt, st, faults, false)| - 1);
    assert After(decrypt, st, t) == Last(Script(decrypt, st, faults, false));
    ts := [t];
    assert ts[1..] == [] && AllPossible(decrypt, After(decrypt, st, t), []);
    assert AfterAll(decrypt, st, ts) == AfterAll(decrypt, After(decrypt, st, t), []) == After(decrypt, st, t);
    ReadAfterWrite(st, row.id, decrypt(row.cols.value).value, row.id);
    assert !KeptAt(decrypt, st, After(decrypt, st, t), i);
  }

  /** No number of starts of the script, each stopped anywhere, loses a key. */
  ghost predicate NeverLoses(decrypt: Decrypt, st: Store) {
    forall ts :: AllPossible(decrypt, st, ts) ==> Kept(decrypt, st, AfterAll(decrypt, st, ts))
  }

  /** Over any number of starts, each stopped at any point and with any failures, no key is lost if and
      only if the key-bearing rows that share an id not readable in Vault agree on their key. */
  lemma NoKeyIsLostExactly(decrypt: Decrypt, st: Store)
    ensures NeverLoses(decrypt, st) <==> Agreeing(decrypt, st)
  {
    if Agreeing(decrypt, st) {
      forall ts | AllPossible(decrypt, st, ts)
        ensures Kept(decrypt, st, AfterAll(decrypt, st, ts))
      {
        AttemptsKeep(decrypt, st, st, ts);
      }
    } else {
      var i, j :| 0 <= i < |st.rows| && 0 <= j < |st.rows| && !AgreeAt(decrypt, st, i, j);
      var ts := LosingAttempt(decrypt, st, i, j);
    }
  }

  /** With distinct ids among the key-bearing rows no key is ever lost. */
  lemma DistinctIdsAreEnough(decrypt: Decrypt, st: Store)
    requires forall i, j :: 0 <= i < j < |st.rows| && st.rows[i].cols.Some? && st.rows[j].cols.Some? ==> st.rows[i].id != st.rows[j].id
    ensures NeverLoses(decrypt, st)
  {
    NoKeyIsLostExactly(decrypt, st);
  }

  /** A dry run writes nothing. */
  lemma {:induction false} DryRunWritesNothing(decrypt: Decrypt, st: Store, rows: seq<Row>, faults: seq<Fault>)
    requires |faults| == |rows|
    ensures forall now :: now in Trace(decrypt, st, rows, faults, true) ==> now == st
    decreases |rows|
  {
    if rows != [] {
      var before := Trace(decrypt, st, rows[..|rows| - 1], faults[..|rows| - 1], true);
      DryRunWritesNothing(decrypt, st, rows[..|rows| - 1], faults[..|rows| - 1]);
      assert Last(before) in before;
    }
  }

  // ------------------------------------------------------------ summary and rerun

  /** What each row of the snapshot came to. */
  function Outcomes(decrypt: Decrypt, st: Store, rows: seq<Row>, faults: seq<Fault>, dryRun: bool): (r: seq<Outcome>)
    requires |faults| == |rows|
    ensures |r| == |rows|
  {
    if rows == [] then []
    else
      var n := |rows| - 1;
      Outcomes(decrypt, st, rows[..n], faults[..n], dryRun) +
      [RowOutcome(decrypt, Last(Trace(decrypt, st, rows[..n], faults[..n], dryRun)), rows[n], faults[n], dryRun)]
  }

  /** Rows that did not fail can be read from Vault after a live run. */
  lemma {:induction false} DoneIsReadable(decrypt: Decrypt, st: Store, rows: seq<Row>, faults: seq<Fault>)
    requires |faults| == |rows|
    ensures forall k :: 0 <= k < |rows| && Outcomes(decrypt, st, rows, faults, false)[k] != Failed ==>
                          ReadKey(Last(Trace(decrypt, st, rows, faults, false)).vault, rows[k].id).Ok?
    decreases |rows|
  {
    if rows != [] {
      var n := |rows| - 1;
      DoneIsReadable(decrypt, st, rows[..n], faults[..n]);
      var mid, end := Last(Trace(decrypt, st, rows[..n], faults[..n], false)), Last(Trace(decrypt, st, rows, faults, false));
      RowStands(decrypt, mid, mid, rows[n], faults[n], false);
      assert end in RowStates(decrypt, mid, rows[n], faults[n], false);
      assert forall id :: ReadKey(mid.vault, id).Ok? ==> ReadKey(end.vault, id) == ReadKey(mid.vault, id);
      if !RowSkipsWrite(decrypt, mid, rows[n], faults[n], false) {
        ReadAfterWrite(mid, rows[n].id, decrypt(rows[n].cols.value).value, rows[n].id);
      }
    }
  }

  lemma {:induction false} QuietTrace(decrypt: Decrypt, st: Store, rows: seq<Row>, faults: seq<Fault>, dryRun: bool)
    requires |faults| == |rows| && forall k :: 0 <= k < |rows| ==> ReadKey(st.vault, rows[k].id).Ok?
    ensures forall now :: now in Trace(decrypt, st, rows, faults, dryRun) ==> now == st
    decreases |rows|
  {
    if rows != [] {
      var n := |rows| - 1;
      var before := Trace(decrypt, st, rows[..n], faults[..n], dryRun);
      QuietTrace(decrypt, st, rows[..n], faults[..n], dryRun);
      assert Last(before) in before && RowSkipsWrite(decrypt, st, rows[n], faults[n], dryRun);
    }
  }

  lemma LeftIsReadable(decrypt: Decrypt, st: Store, faults: seq<Fault>, row: Row)
    requires |faults| == |Selected(st.rows)| && Failed !in Outcomes(decrypt, st, Selected(st.rows), faults, false)
    requires row in Selected(Last(Script(decrypt, st, faults, false)).rows)
    ensures ReadKey(Last(Script(decrypt, st, faults, false)).vault, row.id).Ok?
  {
    var rows, states := Selected(st.rows), Script(decrypt, st, faults, false);
    TraceStands(decrypt, st, st, rows, faults, false);
    assert Last(states) in states;
    DoneIsReadable(decrypt, st, rows, faults);
    SelectedFromSnapshot(st, Last(states));
    SelectedRows(st.rows);
    var m :| 0 <= m < |rows| && rows[m] == row;
  }

  /** After a live run in which no row failed, a rerun changes nothing, whatever fails in it. */
  lemma RerunChangesNothing(decrypt: Decrypt, st: Store, faults: seq<Fault>, again: seq<Fault>, dryRun: bool)
    requires |faults| == |Selected(st.rows)| && Failed !in Outcomes(decrypt, st, Selected(st.rows), faults, false)
    requires |again| == |Selected(Last(Script(decrypt, st, faults, false)).rows)|
    ensures var end := Last(Script(decrypt, st, faults, false));
            forall now :: now in Script(decrypt, end, again, dryRun) ==> now == end
  {
    var end := Last(Script(decrypt, st, faults, false));
    var left := Selected(end.rows);
    forall k | 0 <= k < |left|
      ensures ReadKey(end.vault, left[k].id).Ok?
    {
      LeftIsReadable(decrypt, st, faults, left[k]);
    }
    QuietTrace(decrypt, end, left, again, dryRun);
  }

  /** A 64-byte key stored as AES-GCM text is migrated intact if the text of its nonce has a character
      outside hex; otherwise its row fails and its columns stay. */
  lemma StoredKeyMigrates(a: Aead, kek: seq<byte>, nonce: seq<byte>, key: seq<byte>, st: Store, id: string)
    requires IdealAead(a) && |nonce| == 12 && |key| == 64 && ReadKey(st.vault, id) == Err(NotFound)
    ensures var decrypt: Decrypt := c => DecryptKey(a, kek, c);
            var row := Row(id, Some(EncryptKey(a, kek, nonce, key)));
            var end := Last(RowStates(decrypt, st, row, NoFault, false));
            var outcome := RowOutcome(decrypt, st, row, NoFault, false);
            && (outcome == Migrated <==> !AllHex(ToBase64(nonce)))
            && (outcome == Migrated ==> ReadKey(end.vault, id) == Ok(key))
            && (outcome != Migrated ==> outcome == Failed && end == st)
  {
    EncryptedKeyRoundTrip(a, kek, nonce, key);
    ReadAfterWrite(st, id, key, id);
  }

  /** What the three outcomes mean for the stores before and after. Migrated: nothing failed, Vault had no
      readable key and has the row's now, every row with the id is cleared and nothing else changed; in between
      the key was in both places. Skipped: nothing changed, because Vault has a key or nothing is to be written.
      A row without an id fails. Where nothing was written, nothing changed. */
  lemma OutcomeMeans(decrypt: Decrypt, st: Store, row: Row, f: Fault, dryRun: bool)
    requires row.cols.Some?
    ensures var states := RowStates(decrypt, st, row, f, dryRun);
            var end, o, key, before := Last(states), RowOutcome(decrypt, st, row, f, dryRun), decrypt(row.cols.value), ReadKey(st.vault, row.id);
            && (o == Migrated <==> f == NoFault && !dryRun && before == Err(NotFound) && key.Ok?)
            && (o == Migrated ==>
                  (&& ReadKey(end.vault, row.id) == key
                   && (forall id :: id != row.id ==> (id in end.vault <==> id in st.vault) && (id in st.vault ==> end.vault[id] == st.vault[id]))
                   && |end.rows| == |st.rows|
                   && (forall i :: 0 <= i < |st.rows| ==>
                         end.rows[i] == if st.rows[i].id == row.id then Row(row.id, None) else st.rows[i])
                   && |states| == 2 && states[0].rows == st.rows && ReadKey(states[0].vault, row.id) == key))
            && (o == Skipped <==> !f.CheckRaises? && (before.Ok? || (dryRun && before == Err(NotFound) && key.Ok?)))
            && (o == Skipped ==> states == [st])
            && (row.id == "" ==> o == Failed)
            && (o == Failed && (f.CheckRaises? || f == NoFault || f == WriteRaises(false) || before != Err(NotFound) || key.Err?) ==>
                  states == [st])
  {
    if !RowSkipsWrite(decrypt, st, row, f, dryRun) {
      ReadAfterWrite(st, row.id, decrypt(row.cols.value).value, row.id);
    }
  }

  // ------------------------------------------------------------ the script itself

  function Count(outcomes: seq<Outcome>, o: Outcome): nat {
    if outcomes == [] then 0 else Count(outcomes[..|outcomes| - 1], o) + (if outcomes[|outcomes| - 1] == o then 1 else 0)
  }

  function FailedIds(rows: seq<Row>, outcomes: seq<Outcome>): seq<string>
    requires |outcomes| == |rows|
  {
    if rows == [] then []
    else
      var n := |rows| - 1;
      FailedIds(rows[..n], outcomes[..n]) + (if outcomes[n] == Failed then [rows[n].id] else [])
  }

  /** The database and Vault the script works on. */
  class Backend {
    var rows: seq<Row>
    var vault: map<string, VaultPayload>

    function Contents(): Store
      reads this
    {
      Store(rows, vault)
    }

    method ClearColumns(id: string)
      modifies this
      ensures Contents() == Clear(old(Contents()), id)
    {
      rows := seq(|rows|, i requires 0 <= i < |rows| reads this => if rows[i].id == id then rows[i].(cols := None) else rows[i]);
    }

    method PutKey(id: string, key: seq<byte>)
      modifies this
      ensures Contents() == WriteKey(old(Contents()), id, key)
    {
      vault := vault[id := VaultWrite(key)];
    }

    method SelectRows() returns (r: seq<Row>)
      ensures r == Selected(rows)
    {
      r := [];
      for i := 0 to |rows|
        invariant r == Selected(rows[..i])
      {
        assert rows[..i + 1][..i] == rows[..i];
        if rows[i].cols.Some? {
          r := r + [rows[i]];
        }
      }
      assert rows[..|rows|] == rows;
    }

    /** The body of the loop, for one row of the snapshot. */
    method MigrateRow(decrypt: Decrypt, row: Row, f: Fault, dryRun: bool) returns (o: Outcome)
      modifies this
      ensures Contents() == Last(RowStates(decrypt, old(Contents()), row, f, dryRun))
      ensures o == RowOutcome(decrypt, old(Contents()), row, f, dryRun)
    {
      var present := ReadKey(vault, row.id);
      if f.CheckRaises? || (present.Err? && present.error != NotFound) {
        return Failed;
      }
      if present.Ok? {
        return Skipped;
      }
      if row.cols.None? || decrypt(row.cols.value).Err? {
        return Failed;
      }
      if dryRun {
        return Skipped;
      }
      if f.WriteRaises? {
        if f.stored {
          PutKey(row.id, decrypt(row.cols.value).value);
        }
        return Failed;
      }
      PutKey(row.id, decrypt(row.cols.value).value);
      if f.ClearRaises? {
        if f.applied {
          ClearColumns(row.id);
        }
        return Failed;
      }
      ClearColumns(row.id);
      return Migrated;
    }

    /** The script: what it leaves is the last store of its trace, and its three counters account for
        every row it selected. */
    method Migrate(decrypt: Decrypt, faults: seq<Fault>, dryRun: bool) returns (migrated: nat, skipped: nat, failed: seq<string>)
      requires |faults| == |Selected(rows)|
      modifies this
      ensures Contents() == Last(Script(decrypt, old(Contents()), faults, dryRun))
      ensures var outcomes := Outcomes(decrypt, old(Contents()), Selected(old(rows)), faults, dryRun);
              && migrated == Count(outcomes, Migrated) && skipped == Count(outcomes, Skipped)
              && failed == FailedIds(Selected(old(rows)), outcomes)
      ensures migrated + skipped + |failed| == |Selected(old(rows))|
    {
      var snapshot := SelectRows();
      migrated, skipped, failed := 0, 0, [];
      ghost var was, outcomes := Contents(), [];
      for i := 0 to |snapshot|
        invariant At(decrypt, was, snapshot, faults, dryRun, i, Contents(), outcomes)
        invariant TallyAt(snapshot, i, outcomes, migrated, skipped, failed)
      {
        ghost var now := Contents();
        var o := MigrateRow(decrypt, snapshot[i], faults[i], dryRun);
        AtStep(decrypt, was, snapshot, faults, dryRun, i, now, outcomes, Contents(), o);
        TallyStep(snapshot, i, outcomes, o, migrated, skipped, failed);
        outcomes := outcomes + [o];
        match o {
          case Migrated => migrated := migrated + 1;
          case Skipped => skipped := skipped + 1;
          case Failed => failed := failed + [snapshot[i].id];
        }
      }
      AtEnd(decrypt, was, snapshot, faults, dryRun, Contents(), outcomes, migrated, skipped, failed);
    }
  }

  /** After i rows the store and the outcomes are those of the trace. */
  ghost predicate At(decrypt: Decrypt, st: Store, rows: seq<Row>, faults: seq<Fault>, dryRun: bool, i: nat,
                     now: Store, outcomes: seq<Outcome>)
    requires i <= |rows| == |faults|
  {
    && now == Last(Trace(decrypt, st, rows[..i], faults[..i], dryRun))
    && outcomes == Outcomes(decrypt, st, rows[..i], faults[..i], dryRun)
  }

  ghost predicate Tally(rows: seq<Row>, outcomes: seq<Outcome>, migrated: nat, skipped: nat, failed: seq<string>) {
    && |rows| == |outcomes|
    && migrated == Count(outcomes, Migrated) && skipped == Count(outcomes, Skipped)
    && failed == FailedIds(rows, outcomes)
    && migrated + skipped + |failed| == |rows|
  }

  ghost predicate TallyAt(rows: seq<Row>, i: nat, outcomes: seq<Outcome>, migrated: nat, skipped: nat, failed: seq<string>)
    requires i <= |rows|
  {
    Tally(rows[..i], outcomes, migrated, skipped, failed)
  }

  lemma AtStep(decrypt: Decrypt, st: Store, rows: seq<Row>, faults: seq<Fault>, dryRun: bool, i: nat,
               now: Store, outcomes: seq<Outcome>, next: Store, o: Outcome)
    requires i < |rows| == |faults| && At(decrypt, st, rows, faults, dryRun, i, now, outcomes)
    requires next == Last(RowStates(decrypt, now, rows[i], faults[i], dryRun))
    requires o == RowOutcome(decrypt, now, rows[i], faults[i], dryRun)
    ensures At(decrypt, st, rows, faults, dryRun, i + 1, next, outcomes + [o])
  {
    assert rows[..i + 1][..i] == rows[..i] && faults[..i + 1][..i] == faults[..i];
  }

  lemma AtEnd(decrypt: Decrypt, st: Store, rows: seq<Row>, faults: seq<Fault>, dryRun: bool, end: Store,
              outcomes: seq<Outcome>, migrated: nat, skipped: nat, failed: seq<string>)
    requires |rows| == |faults| && At(decrypt, st, rows, faults, dryRun, |rows|, end, outcomes)
    requires TallyAt(rows, |rows|, outcomes, migrated, skipped, failed)
    ensures end == Last(Trace(decrypt, st, rows, faults, dryRun)) && outcomes == Outcomes(decrypt, st, rows, faults, dryRun)
    ensures Tally(rows, outcomes, migrated, skipped, failed)
  {
    assert rows[..|rows|] == rows && faults[..|rows|] == faults;
  }

  lemma TallyStep(rows: seq<Row>, i: nat, outcomes: seq<Outcome>, o: Outcome, migrated: nat, skipped: nat, failed: seq<string>)
    requires i < |rows| && TallyAt(rows, i, outcomes, migrated, skipped, failed)
    ensures TallyAt(rows, i + 1, outcomes + [o], migrated + (if o == Migrated then 1 else 0),
                    skipped + (if o == Skipped then 1 else 0), failed + (if o == Failed then [rows[i].id] else []))
  {
    assert (outcomes + [o])[..i] == outcomes && rows[..i + 1][..i] == rows[..i];
  }
}
