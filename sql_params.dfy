/**
 * The numbered SQL placeholders two statements of backend/src/server.ts build by hand: the
 * profile upsert and the single `CASE` update of the photo reorder. Placeholder `$k` stands
 * for the k-th element (counted from 1) of the parameter array passed with the statement.
 */
module SqlParams {
  import opened Base
  import opened Text

  datatype SqlValue = IntValue(i: int) | OptIntValue(o: Option<int>) | IntArray(a: seq<int>) | TextValue(t: string)

  /** `` `$${k}` ``. */
  function Placeholder(k: nat): (p: string)
    ensures |p| >= 2 && p[0] == '$' && AllDigits(p[1..])
  {
    "$" + NatToString(k)
  }

  /** The parameter number a placeholder names, if it is one. */
  function PlaceholderNumber(p: string): (k: Option<nat>)
    ensures k.Some? ==> |p| >= 2 && p[0] == '$' && AllDigits(p[1..])
  {
    if |p| >= 2 && p[0] == '$' && AllDigits(p[1..]) then Some(DigitsValue(p[1..])) else None
  }

  lemma PlaceholderRoundTrip(k: nat)
    ensures PlaceholderNumber(Placeholder(k)) == Some(k)
  {
    assert Placeholder(k)[1..] == NatToString(k);
    DigitsValueOfNatToString(k);
  }

  /** Every placeholder reads back as its own number. */
  lemma PlaceholdersRoundTrip()
    ensures forall k: nat :: PlaceholderNumber(Placeholder(k)) == Some(k)
  {
    forall k: nat ensures PlaceholderNumber(Placeholder(k)) == Some(k) {
      PlaceholderRoundTrip(k);
    }
  }

  /** The value the database substitutes for placeholder `p`. */
  function Bound(params: seq<SqlValue>, p: string): (v: Option<SqlValue>)
    ensures v.Some? ==> v.value in params
  {
    var k := PlaceholderNumber(p);
    if k.Some? && 1 <= k.value <= |params| then Some(params[k.value - 1]) else None
  }

  // ----- profile upsert -----

  /** `['$1', ...fields.map((_, idx) => `$${idx + 2}`)]`. */
  function UpsertPlaceholders(fieldCount: nat): (ps: seq<string>)
    ensures |ps| == fieldCount + 1
    ensures forall k :: 0 <= k < |ps| ==> PlaceholderNumber(ps[k]) == Some(k + 1)
  {
    PlaceholdersRoundTrip();
    var ps := [Placeholder(1)] + seq(fieldCount, idx requires 0 <= idx < fieldCount => Placeholder(idx + 2));
    assert forall k :: 0 <= k < |ps| ==> ps[k] == Placeholder(k + 1);
    ps
  }

  /** `insertCols`: `['user_id', ...fields]`. */
  function UpsertColumns(fields: seq<string>): seq<string> {
    ["user_id"] + fields
  }

  /** `params`: `[userId, ...values]`. */
  function UpsertParams(userId: int, values: seq<SqlValue>): (ps: seq<SqlValue>)
    ensures |ps| == |values| + 1 && ps[0] == IntValue(userId)
    ensures forall k :: 0 <= k < |values| ==> ps[k + 1] == values[k]
  {
    [IntValue(userId)] + values
  }

  /** Each inserted column receives its own value: `user_id` the user, field `c` its value. */
  lemma UpsertBindsColumns(userId: int, fields: seq<string>, values: seq<SqlValue>, c: nat)
    requires |values| == |fields| && c < |UpsertColumns(fields)|
    ensures |UpsertPlaceholders(|fields|)| == |UpsertColumns(fields)|
    ensures Bound(UpsertParams(userId, values), UpsertPlaceholders(|fields|)[c]) ==
      Some(if c == 0 then IntValue(userId) else values[c - 1])
  {
    if c == 0 {
      PlaceholderRoundTrip(1);
    } else {
      assert UpsertPlaceholders(|fields|)[c] == Placeholder(c + 1);
      PlaceholderRoundTrip(c + 1);
    }
  }

  // ----- reorder CASE update -----

  /** For row `idx`: `WHEN id = $${2 + idx} THEN $${2 + n + idx}`, as a pair of placeholders. */
  function WhenClauses(n: nat): (cs: seq<(string, string)>)
    ensures |cs| == n
    ensures forall idx :: 0 <= idx < n ==>
      PlaceholderNumber(cs[idx].0) == Some(2 + idx) && PlaceholderNumber(cs[idx].1) == Some(2 + n + idx)
  {
    PlaceholdersRoundTrip();
    seq(n, idx requires 0 <= idx < n => (Placeholder(2 + idx), Placeholder(2 + n + idx)))
  }

  /** `id = ANY($${2 * n + 2}::int[])`. */
  function IdArrayPlaceholder(n: nat): string {
    Placeholder(2 * n + 2)
  }

  /** `[userId, ...curIds, ...finalPositions, curIds]`. */
  function ReorderParams(userId: int, curIds: seq<int>, finalPositions: seq<Option<int>>): (ps: seq<SqlValue>)
    ensures |ps| == |curIds| + |finalPositions| + 2
    ensures ps[0] == IntValue(userId) && ps[|ps| - 1] == IntArray(curIds)
    ensures forall k :: 0 <= k < |curIds| ==> ps[1 + k] == IntValue(curIds[k])
    ensures forall k :: 0 <= k < |finalPositions| ==> ps[1 + |curIds| + k] == OptIntValue(finalPositions[k])
  {
    [IntValue(userId)] +
    seq(|curIds|, k requires 0 <= k < |curIds| => IntValue(curIds[k])) +
    seq(|finalPositions|, k requires 0 <= k < |finalPositions| => OptIntValue(finalPositions[k])) +
    [IntArray(curIds)]
  }

  /** Each `WHEN` clause pairs the id of row `idx` with that row's final position. */
  lemma CaseBindsPlan(userId: int, curIds: seq<int>, finalPositions: seq<Option<int>>, idx: nat)
    requires |finalPositions| == |curIds| && idx < |curIds|
    ensures Bound(ReorderParams(userId, curIds, finalPositions), WhenClauses(|curIds|)[idx].0) ==
      Some(IntValue(curIds[idx]))
    ensures Bound(ReorderParams(userId, curIds, finalPositions), WhenClauses(|curIds|)[idx].1) ==
      Some(OptIntValue(finalPositions[idx]))
  {
    var n := |curIds|;
    PlaceholderRoundTrip(2 + idx);
    PlaceholderRoundTrip(2 + n + idx);
  }

  /** The `ANY` placeholder names the id array, and `$1` the owner. */
  lemma CaseBindsFilter(userId: int, curIds: seq<int>, finalPositions: seq<Option<int>>)
    requires |finalPositions| == |curIds|
    ensures Bound(ReorderParams(userId, curIds, finalPositions), IdArrayPlaceholder(|curIds|)) ==
      Some(IntArray(curIds))
    ensures Bound(ReorderParams(userId, curIds, finalPositions), Placeholder(1)) == Some(IntValue(userId))
  {
    PlaceholderRoundTrip(2 * |curIds| + 2);
    PlaceholderRoundTrip(1);
  }
}
