/**
 * The maintenance script: renaming the records of 2024 that were stored
 * under a 2025 id, inside one transaction, and emptying both tables.
 */
module Repair {
  import opened Common
  import opened Text
  import opened Sql
  import opened Parsers
  import opened Store

  /** `sqlite3.IntegrityError`: the new id is already the key of another record. */
  datatype RepairError = IdTaken(id: string)

  const WrongSuffix := "-2025"
  const RightSuffix := "-2024"

  /** `id LIKE '%-2025'`. */
  predicate EndsWrong(id: string) {
    Like(id, ['%'] + WrongSuffix)
  }

  /** The `WHERE` clause of the selection: dated from 2024-01-01 up to, not including, 2025-01-01, with a 2025 id. */
  predicate Selected(id: string, p: Penalty) {
    DateLe(Date(2024, 1, 1), p.date) && !DateLe(Date(2025, 1, 1), p.date) && EndsWrong(id)
  }

  /** The ids the selection returns, each once, in the order SQLite returns them. */
  predicate SelectionOrder(db: Db, order: seq<string>) {
    && (forall i :: 0 <= i < |order| ==> order[i] in db.penalties && Selected(order[i], db.penalties[order[i]]))
    && (forall id :: id in db.penalties && Selected(id, db.penalties[id]) ==> id in order)
    && (forall i, j :: 0 <= i < j < |order| ==> order[i] != order[j])
  }

  /** `old_id.split('-')[0]` followed by `-2024`. */
  function NewId(oldId: string): string {
    Split(oldId, "-")[0] + RightSuffix
  }

  /** `SET linked_penalties = REPLACE(linked_penalties, old, new) WHERE linked_penalties LIKE '%old%'`, on one row. */
  function RelinkEntry(e: PdfEntry, oldId: string, newId: string): PdfEntry {
    if e.links.Some? && Like(e.links.value, ['%'] + oldId + ['%']) then e.(links := Some(Replace(e.links.value, oldId, newId)))
    else e
  }

  /** The same update over every row of `penalties_pdfs`. */
  function RelinkAll(pdfs: map<string, PdfEntry>, oldId: string, newId: string): (r: map<string, PdfEntry>)
    ensures r.Keys == pdfs.Keys
    ensures forall u :: u in r ==> r[u].text == pdfs[u].text
  {
    map u | u in pdfs :: RelinkEntry(pdfs[u], oldId, newId)
  }

  /**
   * One pass of the loop: `UPDATE penalties SET id = new WHERE id = old`, which
   * fails when another record already has the new id, then the link rewrite.
   */
  function RenameStep(db: Db, oldId: string): Result<Db, RepairError> {
    var newId := NewId(oldId);
    if oldId in db.penalties && newId != oldId && newId in db.penalties then Err(IdTaken(newId))
    else
      var penalties := if oldId in db.penalties then (db.penalties - {oldId})[newId := db.penalties[oldId]] else db.penalties;
      Ok(Db(penalties, RelinkAll(db.pdfs, oldId, newId)))
  }

  /** The loop over the selected ids; the first failure abandons the transaction. */
  function RepairRun(db: Db, order: seq<string>): Result<Db, RepairError>
    decreases |order|
  {
    if order == [] then Ok(db)
    else
      match RenameStep(db, order[0])
      case Err(e) => Err(e)
      case Ok(next) => RepairRun(next, order[1..])
  }

  // ---------------------------------------------------------------------
  // Properties of the repair

  /** The renamed ids, all distinct and none taken before the repair. */
  predicate Fresh(db: Db, order: seq<string>) {
    && (forall i :: 0 <= i < |order| ==> NewId(order[i]) !in db.penalties)
    && (forall i, j :: 0 <= i < j < |order| ==> NewId(order[i]) != NewId(order[j]))
  }

  /** A new id never has the 2025 suffix, so it is never one of the ids being renamed. */
  lemma NewIdNotWrong(oldId: string)
    ensures !EndsWrong(NewId(oldId))
  {
    var n := NewId(oldId);
    LikeEndsWith(n, WrongSuffix);
    assert n[|n| - 5..] == RightSuffix;
    assert Lower(RightSuffix)[4] == '4';
    assert Lower(WrongSuffix)[4] == '5';
  }

  /** The repair restores the ids the scraper makes: `"{i}-2025"` becomes `"{i}-2024"`. */
  lemma NewIdOfScraperId(i: nat)
    ensures NewId(MakeId(i, 2025)) == MakeId(i, 2024)
  {
    var a, b := NatToString(i), NatToString(2025);
    assert '-' !in a && '-' !in b by {
      assert forall c :: c in a ==> IsDigit(c);
      assert forall c :: c in b ==> IsDigit(c);
    }
    assert Join([a, b], "-") == a + "-" + b;
    SplitJoin([a, b], '-');
  }

  /** The facts every pass keeps: the ids still to rename are records, distinct, and carry the 2025 suffix. */
  predicate Pending(db: Db, order: seq<string>) {
    && (forall i :: 0 <= i < |order| ==> order[i] in db.penalties && EndsWrong(order[i]))
    && (forall i, j :: 0 <= i < j < |order| ==> order[i] != order[j])
  }

  lemma SelectionPending(db: Db, order: seq<string>)
    requires SelectionOrder(db, order)
    ensures Pending(db, order)
  {
  }

  /** One successful pass moves the first record to its new id and leaves the rest pending. */
  lemma StepFacts(db: Db, order: seq<string>)
    requires order != [] && Pending(db, order) && NewId(order[0]) !in db.penalties
    ensures RenameStep(db, order[0]).Ok?
    ensures var next := RenameStep(db, order[0]).value;
      && Pending(next, order[1..])
      && next.penalties.Keys == db.penalties.Keys - {order[0]} + {NewId(order[0])}
      && next.penalties[NewId(order[0])] == db.penalties[order[0]]
      && (forall k :: k in db.penalties && k != order[0] ==> next.penalties[k] == db.penalties[k])
  {
    var x := order[0];
    NewIdNotWrong(x);
    assert NewId(x) != x;
    var next := RenameStep(db, x).value;
    forall i | 0 <= i < |order[1..]| ensures order[1..][i] in next.penalties {
      assert order[1..][i] == order[i + 1] != x;
    }
  }

  /**
   * The transaction commits exactly when every new id is distinct from the
   * others and from every id stored before; otherwise it rolls back.
   */
  lemma {:induction false} RepairSucceedsIff(db: Db, order: seq<string>)
    requires Pending(db, order)
    ensures RepairRun(db, order).Ok? <==> Fresh(db, order)
    decreases |order|
  {
    if order != [] {
      var x, rest := order[0], order[1..];
      if NewId(x) in db.penalties {
        NewIdNotWrong(x);
        assert NewId(x) != x;
      } else {
        StepFacts(db, order);
        var next := RenameStep(db, x).value;
        RepairSucceedsIff(next, rest);
        forall i | 0 <= i < |rest|
          ensures NewId(rest[i]) !in next.penalties <==> NewId(rest[i]) !in db.penalties && NewId(rest[i]) != NewId(x)
        {
          NewIdNotWrong(rest[i]);
          assert rest[i] == order[i + 1];
          assert NewId(rest[i]) != x;
        }
        if Fresh(db, order) {
          forall i, j | 0 <= i < j < |rest| ensures NewId(rest[i]) != NewId(rest[j]) {
            assert rest[i] == order[i + 1] && rest[j] == order[j + 1];
          }
          forall i | 0 <= i < |rest| ensures NewId(rest[i]) != NewId(x) {
            assert rest[i] == order[i + 1] && x == order[0];
          }
        }
        if Fresh(next, rest) {
          forall i | 0 <= i < |order| ensures NewId(order[i]) !in db.penalties {
            if i > 0 {
              assert order[i] == rest[i - 1];
            }
          }
          forall i, j | 0 <= i < j < |order| ensures NewId(order[i]) != NewId(order[j]) {
            assert order[j] == rest[j - 1];
            if i > 0 {
              assert order[i] == rest[i - 1];
            }
          }
        }
      }
    }
  }

  /** The set of ids in a list. */
  function IdSet(order: seq<string>): set<string> {
    set x | x in order
  }

  /** The set of new ids for a list. */
  function NewIdSet(order: seq<string>): set<string> {
    set x | x in order :: NewId(x)
  }

  /** What the rest of a run needs to know about the first pass. */
  lemma RunStep(db: Db, order: seq<string>)
    requires order != [] && Pending(db, order) && RepairRun(db, order).Ok?
    ensures NewId(order[0]) !in db.penalties
    ensures RenameStep(db, order[0]).Ok?
    ensures RepairRun(db, order) == RepairRun(RenameStep(db, order[0]).value, order[1..])
  {
    NewIdNotWrong(order[0]);
  }

  /** A committed repair keeps every document and its text; only link lists change. */
  lemma {:induction false} RepairKeepsDocuments(db: Db, order: seq<string>)
    requires RepairRun(db, order).Ok?
    ensures var d := RepairRun(db, order).value;
      d.pdfs.Keys == db.pdfs.Keys && forall u :: u in db.pdfs ==> d.pdfs[u].text == db.pdfs[u].text
    decreases |order|
  {
    if order != [] {
      RepairKeepsDocuments(RenameStep(db, order[0]).value, order[1..]);
    }
  }

  /** A committed repair replaces the selected ids by their new ids in the key set. */
  lemma {:induction false} RepairKeys(db: Db, order: seq<string>)
    requires Pending(db, order) && RepairRun(db, order).Ok?
    ensures RepairRun(db, order).value.penalties.Keys == db.penalties.Keys - IdSet(order) + NewIdSet(order)
    decreases |order|
  {
    if order != [] {
      var x, rest := order[0], order[1..];
      RunStep(db, order);
      StepFacts(db, order);
      var next := RenameStep(db, x).value;
      RepairKeys(next, rest);
      IdSetCons(order);
      NewIdNotPending(x, rest);
      RenameThenRest(db.penalties.Keys, x, NewId(x), IdSet(rest), NewIdSet(rest));
    }
  }

  lemma IdSetCons(order: seq<string>)
    requires order != []
    ensures IdSet(order) == {order[0]} + IdSet(order[1..])
    ensures NewIdSet(order) == {NewId(order[0])} + NewIdSet(order[1..])
  {
    assert order == [order[0]] + order[1..];
  }

  /** A new id is never among the ids still to rename. */
  lemma NewIdNotPending(x: string, rest: seq<string>)
    requires forall i :: 0 <= i < |rest| ==> EndsWrong(rest[i])
    ensures NewId(x) !in IdSet(rest)
  {
    NewIdNotWrong(x);
    forall y | y in rest ensures y != NewId(x) {
      var i :| 0 <= i < |rest| && rest[i] == y;
      assert EndsWrong(rest[i]);
    }
  }

  /** Renaming one key and then the others is renaming them all at once, when the new key is not renamed again. */
  lemma RenameThenRest(keys: set<string>, x: string, n: string, ids: set<string>, newIds: set<string>)
    requires n !in ids
    ensures keys - {x} + {n} - ids + newIds == keys - ({x} + ids) + ({n} + newIds)
  {
  }

  /**
   * A committed repair moves each selected record, unchanged, to its new id,
   * and keeps every other record where it was.
   */
  lemma {:induction false} RepairMovesRecords(db: Db, order: seq<string>)
    requires Pending(db, order) && RepairRun(db, order).Ok?
    ensures var d := RepairRun(db, order).value;
      && (forall i :: 0 <= i < |order| ==> NewId(order[i]) in d.penalties && d.penalties[NewId(order[i])] == db.penalties[order[i]])
      && (forall k :: k in db.penalties && k !in order ==> k in d.penalties && d.penalties[k] == db.penalties[k])
    decreases |order|
  {
    if order != [] {
      var x, rest := order[0], order[1..];
      RunStep(db, order);
      StepFacts(db, order);
      var next := RenameStep(db, x).value;
      RepairMovesRecords(next, rest);
      RepairSucceedsIff(db, order);
      var d := RepairRun(next, rest).value;
      forall k | k in db.penalties && k !in order ensures k in d.penalties && d.penalties[k] == db.penalties[k] {
        assert k != x && k !in rest;
        NewIdNotWrong(x);
      }
      assert NewId(x) in d.penalties && d.penalties[NewId(x)] == db.penalties[x] by {
        NewIdNotWrong(x);
        assert NewId(x) in next.penalties;
        NewIdNotPending(x, rest);
      }
      forall i | 0 <= i < |order|
        ensures NewId(order[i]) in d.penalties && d.penalties[NewId(order[i])] == db.penalties[order[i]]
      {
        if i > 0 {
          assert order[i] == rest[i - 1];
        }
      }
    }
  }

  /**
   * After a committed repair the selection finds nothing, so running the
   * script again renames nothing and reports zero.
   */
  lemma RepairIdempotent(db: Db, order: seq<string>)
    requires SelectionOrder(db, order) && RepairRun(db, order).Ok?
    ensures SelectionOrder(RepairRun(db, order).value, [])
  {
    var d := RepairRun(db, order).value;
    SelectionPending(db, order);
    RepairKeys(db, order);
    RepairMovesRecords(db, order);
    forall k | k in d.penalties ensures !Selected(k, d.penalties[k]) {
      if k in NewIdSet(order) {
        var x :| x in order && k == NewId(x);
        NewIdNotWrong(x);
      } else {
        assert k in db.penalties && k !in order;
      }
    }
  }

  /** Digits and dashes are their own lower case. */
  lemma LowerDigitsDash(s: string)
    requires forall i :: 0 <= i < |s| ==> IsDigit(s[i]) || s[i] == '-'
    ensures Lower(s) == s
  {
  }

  /** SQLite's `REPLACE` is not token-aware: renaming `1-2025` rewrites inside `11-2025`. */
  lemma ReplaceInsideLongerId()
    ensures Replace("11-2025", "1-2025", "1-2024") == "11-2024"
  {
    var s, t := "11-2025", "1-2025";
    assert s[0..6] != t by {
      assert s[0..6][1] != t[1];
    }
    assert s[1..7] == t;
    assert Find(s, t, 0) == 1;
    assert s[..1] == "1" && s[7..] == [];
    assert Split(s[7..], t) == [[]];
    assert Split(s, t) == ["1", []];
  }

  /** A record of the given year with nothing else of note. */
  function HazardPenalty(year: int): Penalty {
    Penalty(Date(year, 3, 1), None, "A", Decimal("1", []), Decimal("1", []))
  }

  /** A record of 2024 stored as `1-2025`, a record of 2025 stored as `11-2025`, and a document linked to the latter. */
  function HazardDb(): Db {
    Db(map["1-2025" := HazardPenalty(2024), "11-2025" := HazardPenalty(2025)], map["u" := PdfEntry(None, Some("11-2025"))])
  }

  lemma HazardSelection()
    ensures SelectionOrder(HazardDb(), ["1-2025"])
  {
    LowerDigitsDash("1-2025");
    LowerDigitsDash(WrongSuffix);
    LikeEndsWith("1-2025", WrongSuffix);
    assert "1-2025"[6 - 5..] == WrongSuffix;
  }

  /** A link string without commas is a single id. */
  lemma SingleLink(id: string)
    requires id != [] && ',' !in id
    ensures LinkList(Some(id)) == [id]
  {
    FindChar(id, ',', |id|);
  }

  lemma HazardLinksResolve()
    ensures LinksResolve(HazardDb())
  {
    SingleLink("11-2025");
  }

  lemma HazardNewId()
    ensures NewId("1-2025") == "1-2024"
  {
    FindChar("1-2025", '-', 1);
    assert Split("1-2025", "-")[0] == "1";
  }

  /** `'11-2025' LIKE '%1-2025%'` holds. */
  lemma HazardLike()
    ensures Like("11-2025", ['%'] + "1-2025" + ['%'])
  {
    LowerDigitsDash("11-2025");
    LowerDigitsDash("1-2025");
    LikeContains("11-2025", "1-2025");
    assert OccursAt("11-2025", "1-2025", 1);
    ContainsIff("11-2025", "1-2025");
  }

  /** The rename of `1-2025` rewrites the link `11-2025` into `11-2024`. */
  lemma HazardRelink()
    ensures RelinkEntry(PdfEntry(None, Some("11-2025")), "1-2025", "1-2024") == PdfEntry(None, Some("11-2024"))
  {
    HazardLike();
    ReplaceInsideLongerId();
  }

  /** After the rename the document links `11-2024`, which is no record's id. */
  lemma HazardAfter()
    ensures RenameStep(HazardDb(), "1-2025").Ok?
    ensures var d := RenameStep(HazardDb(), "1-2025").value;
      "u" in d.pdfs && d.pdfs["u"].links == Some("11-2024") && "11-2024" !in d.penalties
  {
    var db := HazardDb();
    HazardNewId();
    assert "1-2024" !in db.penalties;
    var d := RenameStep(db, "1-2025").value;
    assert d.penalties == (db.penalties - {"1-2025"})["1-2024" := db.penalties["1-2025"]];
    assert d.pdfs == RelinkAll(db.pdfs, "1-2025", "1-2024");
    HazardRelink();
    assert d.pdfs["u"] == RelinkEntry(db.pdfs["u"], "1-2025", "1-2024");
  }

  /**
   * The rewrite can leave a link pointing at no record: repairing `1-2025`
   * (dated 2024) turns a document's link to the correct `11-2025` (dated 2025)
   * into `11-2024`, which no record has.
   */
  lemma RepairCanBreakLinks()
    ensures SelectionOrder(HazardDb(), ["1-2025"]) && LinksResolve(HazardDb())
    ensures RepairRun(HazardDb(), ["1-2025"]).Ok?
    ensures !LinksResolve(RepairRun(HazardDb(), ["1-2025"]).value)
  {
    HazardSelection();
    HazardLinksResolve();
    HazardAfter();
    var d := RenameStep(HazardDb(), "1-2025").value;
    assert RepairRun(HazardDb(), ["1-2025"]) == RepairRun(d, []);
    HazardBrokenLink();
    assert "11-2024" in LinkList(d.pdfs["u"].links);
  }

  lemma HazardBrokenLink()
    ensures LinkList(Some("11-2024")) == ["11-2024"]
  {
    SingleLink("11-2024");
  }

  // ---------------------------------------------------------------------
  // The script itself

  /**
   * `repair_2024_ids`: renames each selected record and rewrites the link
   * lists, committing when every rename succeeds and rolling everything back
   * on the first failure; on success it reports how many it renamed.
   */
  method Repair2024Ids(store: PenaltyStore, order: seq<string>) returns (r: Result<nat, RepairError>)
    requires SelectionOrder(store.Snapshot(), order)
    modifies store
    ensures var run := RepairRun(old(store.Snapshot()), order);
      && (run.Ok? ==> r == Ok(|order|) && store.Snapshot() == run.value)
      && (run.Err? ==> r == Err(run.error) && store.Snapshot() == old(store.Snapshot()))
  {
    var savedPenalties, savedPdfs := store.penalties, store.pdfs;
    var count := 0;
    for i := 0 to |order|
      invariant count == i
      invariant RepairRun(old(store.Snapshot()), order) == RepairRun(store.Snapshot(), order[i..])
      invariant savedPenalties == old(store.penalties) && savedPdfs == old(store.pdfs)
    {
      assert order[i..][0] == order[i] && order[i..][1..] == order[i + 1..];
      var oldId := order[i];
      var newId := NewId(oldId);
      if oldId in store.penalties {
        if newId != oldId && newId in store.penalties {
          store.penalties, store.pdfs := savedPenalties, savedPdfs;
          return Err(IdTaken(newId));
        }
        store.penalties := (store.penalties - {oldId})[newId := store.penalties[oldId]];
      }
      store.pdfs := RelinkAll(store.pdfs, oldId, newId);
      count := count + 1;
    }
    assert order[|order|..] == [];
    return Ok(count);
  }

  /** `erase_database`: reports how many rows each table held, then empties both. */
  method EraseDatabase(store: PenaltyStore) returns (penaltiesCount: nat, pdfsCount: nat)
    modifies store
    ensures penaltiesCount == |old(store.penalties)| && pdfsCount == |old(store.pdfs)|
    ensures store.penalties == map[] && store.pdfs == map[]
  {
    penaltiesCount, pdfsCount := |store.penalties|, |store.pdfs|;
    store.penalties := map[];
    store.pdfs := map[];
  }
}
