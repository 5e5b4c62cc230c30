/**
The bounded relay-correlation table: when a request identifier can come to stand for other
content. Entries leave first in first out; a retry does not refresh its entry.
*/
module RelayTable {
  import opened Common
  import opened Constants
  import opened SessionRecord

  ghost predicate UniqueIds(relays: seq<Correlation>) {
    forall i, j :: 0 <= i < j < |relays| ==> relays[i].requestId != relays[j].requestId
  }

  ghost predicate TableInvariant(relays: seq<Correlation>) {
    UniqueIds(relays) && |relays| <= MAX_RECENT_RELAYS
  }

  ghost function Ids(relays: seq<Correlation>): set<string> {
    set i | 0 <= i < |relays| :: relays[i].requestId
  }

  // ----- searching and pruning -----

  lemma {:induction false} FindRelayFinds(relays: seq<Correlation>, requestId: string)
    ensures FindRelay(relays, requestId).Some? <==> requestId in Ids(relays)
    ensures FindRelay(relays, requestId).Some? ==>
      FindRelay(relays, requestId).value in relays && FindRelay(relays, requestId).value.requestId == requestId
  {
    if relays != [] && relays[0].requestId != requestId {
      FindRelayFinds(relays[1..], requestId);
      assert forall i :: 0 <= i < |relays[1..]| ==> relays[1..][i] == relays[i + 1];
      assert forall i :: 1 <= i < |relays| ==> relays[i] == relays[1..][i - 1];
    }
  }

  /** With unique identifiers, the entry found is the only one there is. */
  lemma FindRelayUnique(relays: seq<Correlation>, p: nat)
    requires UniqueIds(relays) && p < |relays|
    ensures FindRelay(relays, relays[p].requestId) == Some(relays[p])
  {
    FindRelayFinds(relays, relays[p].requestId);
    var found := FindRelay(relays, relays[p].requestId).value;
    var q :| 0 <= q < |relays| && relays[q] == found;
  }

  lemma {:induction false} LiveRelaysMembers(relays: seq<Correlation>, now: int)
    ensures forall c :: c in LiveRelays(relays, now) ==> c in relays && c.expiresAt > now
    ensures |LiveRelays(relays, now)| <= |relays|
  {
    if relays != [] {
      LiveRelaysMembers(relays[1..], now);
    }
  }

  lemma {:induction false} LiveRelaysUnique(relays: seq<Correlation>, now: int)
    requires UniqueIds(relays)
    ensures UniqueIds(LiveRelays(relays, now))
  {
    if relays != [] {
      var rest := relays[1..];
      LiveRelaysUnique(rest, now);
      LiveRelaysMembers(rest, now);
      var live := LiveRelays(rest, now);
      forall i | 0 <= i < |live| ensures live[i].requestId != relays[0].requestId {
        assert live[i] in rest;
        var k :| 0 <= k < |rest| && rest[k] == live[i];
        assert relays[k + 1] == live[i];
      }
    }
  }

  /** The table stays small and unambiguous. */
  lemma ClaimKeepsInvariant(relays: seq<Correlation>, requestId: string, fingerprint: string, now: int)
    requires TableInvariant(relays)
    ensures TableInvariant(ClaimTable(relays, requestId, fingerprint, now))
  {
    LiveRelaysUnique(relays, now);
    LiveRelaysMembers(relays, now);
    InsertKeepsInvariant(LiveRelays(relays, now), Correlation(now + CAPABILITY_TTL_MS, fingerprint, requestId));
  }

  lemma InsertKeepsInvariant(live: seq<Correlation>, added: Correlation)
    requires TableInvariant(live)
    ensures FindRelay(live, added.requestId).None? ==> TableInvariant(LastN(live + [added], MAX_RECENT_RELAYS))
  {
    FindRelayFinds(live, added.requestId);
    forall i | 0 <= i < |live| ensures live[i].requestId in Ids(live) {}
  }

  // ----- following one entry -----

  /** The entry is in the table and every identifier behind it is one of `ids`. */
  ghost predicate HeldBefore(relays: seq<Correlation>, entry: Correlation, ids: set<string>) {
    && relays != []
    && ((relays[0] == entry && Ids(relays[1..]) <= ids) || HeldBefore(relays[1..], entry, ids))
  }

  lemma {:induction false} HeldPosition(relays: seq<Correlation>, entry: Correlation, ids: set<string>) returns (p: nat)
    requires HeldBefore(relays, entry, ids)
    ensures p < |relays| && relays[p] == entry && Ids(relays[p + 1..]) <= ids
  {
    if relays[0] == entry && Ids(relays[1..]) <= ids {
      p := 0;
    } else {
      p := HeldPosition(relays[1..], entry, ids);
      assert relays[1..][p + 1..] == relays[p + 2..];
      p := p + 1;
    }
  }

  lemma {:induction false} HeldFromPosition(relays: seq<Correlation>, p: nat, ids: set<string>)
    requires p < |relays| && Ids(relays[p + 1..]) <= ids
    ensures HeldBefore(relays, relays[p], ids)
  {
    if p > 0 {
      assert relays[1..][p..] == relays[p + 1..];
      HeldFromPosition(relays[1..], p - 1, ids);
    }
  }

  lemma {:induction false} LiveKeepsEntry(relays: seq<Correlation>, entry: Correlation, ids: set<string>, now: int)
    requires HeldBefore(relays, entry, ids) && entry.expiresAt > now
    ensures HeldBefore(LiveRelays(relays, now), entry, ids)
  {
    var rest := LiveRelays(relays[1..], now);
    if relays[0] == entry && Ids(relays[1..]) <= ids {
      assert LiveRelays(relays, now)[1..] == rest;
      LiveRelaysMembers(relays[1..], now);
      forall id | id in Ids(rest) ensures id in ids {
        var k :| 0 <= k < |rest| && rest[k].requestId == id;
        assert rest[k] in relays[1..];
        assert id in Ids(relays[1..]);
      }
    } else {
      LiveKeepsEntry(relays[1..], entry, ids, now);
      assert relays[0].expiresAt > now ==> LiveRelays(relays, now)[1..] == rest;
    }
  }

  lemma IdsAppend(relays: seq<Correlation>, c: Correlation)
    ensures Ids(relays + [c]) == Ids(relays) + {c.requestId}
  {
    var longer := relays + [c];
    forall id | id in Ids(relays) + {c.requestId} ensures id in Ids(longer) {
      if id == c.requestId {
        assert longer[|relays|].requestId == id;
      } else {
        var k :| 0 <= k < |relays| && relays[k].requestId == id;
        assert longer[k].requestId == id;
      }
    }
  }

  lemma {:induction false} HeldBeforeMore(relays: seq<Correlation>, entry: Correlation, ids: set<string>,
    more: set<string>)
    requires HeldBefore(relays, entry, ids) && ids <= more
    ensures HeldBefore(relays, entry, more)
  {
    if !(relays[0] == entry && Ids(relays[1..]) <= ids) {
      HeldBeforeMore(relays[1..], entry, ids, more);
    }
  }

  /** An entry survives an insertion unless 256 other identifiers stand behind it. */
  lemma InsertionKeepsEntry(live: seq<Correlation>, entry: Correlation, ids: set<string>, added: Correlation)
    requires UniqueIds(live + [added]) && |live| <= MAX_RECENT_RELAYS
    requires HeldBefore(live, entry, ids) && added.requestId in ids
    ensures HeldBefore(LastN(live + [added], MAX_RECENT_RELAYS), entry, ids) || |ids| >= MAX_RECENT_RELAYS
  {
    var p := HeldPosition(live, entry, ids);
    var longer := live + [added];
    assert longer[p + 1..] == live[p + 1..] + [added];
    IdsAppend(live[p + 1..], added);
    if |longer| <= MAX_RECENT_RELAYS {
      HeldFromPosition(longer, p, ids);
    } else if p > 0 {
      assert longer[1..][p..] == longer[p + 1..] && longer[1..][p - 1] == entry;
      HeldFromPosition(longer[1..], p - 1, ids);
    } else {
      SuffixCardinality(longer, 1);
      SubsetCardinality(Ids(longer[1..]), ids);
    }
  }

  lemma SuffixCardinality(relays: seq<Correlation>, p: nat)
    requires UniqueIds(relays) && p <= |relays|
    ensures |Ids(relays[p..])| == |relays| - p
  {
    IdsCardinality(relays[p..]);
  }

  lemma IdsCardinality(relays: seq<Correlation>)
    requires UniqueIds(relays)
    ensures |Ids(relays)| == |relays|
  {
    var ids := seq(|relays|, i requires 0 <= i < |relays| => relays[i].requestId);
    DistinctCardinality(ids);
    assert Elements(ids) == Ids(relays) by {
      forall x | x in Elements(ids) ensures x in Ids(relays) {
        var i :| 0 <= i < |ids| && ids[i] == x;
        assert relays[i].requestId == x;
      }
      forall x | x in Ids(relays) ensures x in Elements(ids) {
        var i :| 0 <= i < |relays| && relays[i].requestId == x;
        assert ids[i] == x;
      }
    }
  }

  // ----- runs of the table -----

  datatype ClaimOp = ClaimOp(now: int, requestId: string, fingerprint: string)

  predicate Admits(relays: seq<Correlation>, op: ClaimOp) {
    var existing := FindRelay(LiveRelays(relays, op.now), op.requestId);
    existing.None? || existing.value.fingerprint == op.fingerprint
  }

  /** The table, empty at first, after the first k claims, of which it refuses the conflicting ones. */
  function TableAt(ops: seq<ClaimOp>, k: nat): seq<Correlation>
    requires k <= |ops|
  {
    if k == 0 then []
    else
      var before, op := TableAt(ops, k - 1), ops[k - 1];
      if Admits(before, op) then ClaimTable(before, op.requestId, op.fingerprint, op.now) else before
  }

  /** Claim k puts a new entry into the table. */
  predicate Inserts(ops: seq<ClaimOp>, k: nat)
    requires k < |ops|
  {
    FindRelay(LiveRelays(TableAt(ops, k), ops[k].now), ops[k].requestId).None?
  }

  /** The identifiers inserted by the claims from i up to j, other than `except`. */
  ghost function InsertedIds(ops: seq<ClaimOp>, i: nat, j: nat, except: string): set<string>
    requires i <= j <= |ops|
  {
    set k | i <= k < j && Inserts(ops, k) && ops[k].requestId != except :: ops[k].requestId
  }

  function EntryOf(op: ClaimOp): Correlation {
    Correlation(op.now + CAPABILITY_TTL_MS, op.fingerprint, op.requestId)
  }

  lemma {:induction false} TableAlwaysValid(ops: seq<ClaimOp>, k: nat)
    requires k <= |ops|
    ensures TableInvariant(TableAt(ops, k))
  {
    if k > 0 {
      TableAlwaysValid(ops, k - 1);
      ClaimKeepsInvariant(TableAt(ops, k - 1), ops[k - 1].requestId, ops[k - 1].fingerprint, ops[k - 1].now);
    }
  }

  /** Before claim j, the entry of claim i stands with only later insertions behind it, or 256 of them came. */
  ghost predicate Behind(ops: seq<ClaimOp>, i: nat, j: nat)
    requires i < j <= |ops|
  {
    var ids := InsertedIds(ops, i + 1, j, ops[i].requestId);
    HeldBefore(TableAt(ops, j), EntryOf(ops[i]), ids) || |ids| >= MAX_RECENT_RELAYS
  }

  lemma InsertedIsLast(ops: seq<ClaimOp>, i: nat)
    requires i < |ops| && Inserts(ops, i)
    ensures Behind(ops, i, i + 1)
  {
    var relays := TableAt(ops, i + 1);
    assert relays[|relays| - 1] == EntryOf(ops[i]);
    assert relays[|relays|..] == [];
    HeldFromPosition(relays, |relays| - 1, {});
  }

  /** One claim: the unexpired entry stays, with the newly inserted identifier behind it, or was pushed out. */
  lemma ClaimKeepsEntry(ops: seq<ClaimOp>, j: nat, entry: Correlation, ids: set<string>)
    requires j < |ops| && HeldBefore(TableAt(ops, j), entry, ids) && ops[j].now < entry.expiresAt
    requires Inserts(ops, j) && ops[j].requestId != entry.requestId ==> ops[j].requestId in ids
    ensures HeldBefore(TableAt(ops, j + 1), entry, ids) || |ids| >= MAX_RECENT_RELAYS
  {
    var relays, op := TableAt(ops, j), ops[j];
    var live := LiveRelays(relays, op.now);
    TableAlwaysValid(ops, j);
    LiveRelaysUnique(relays, op.now);
    LiveRelaysMembers(relays, op.now);
    LiveKeepsEntry(relays, entry, ids, op.now);
    FindRelayFinds(live, op.requestId);
    if Inserts(ops, j) {
      var p := HeldPosition(live, entry, ids);
      assert entry.requestId in Ids(live);
      InsertionKeepsEntry(live, entry, ids, EntryOf(op));
    }
  }

  lemma ClaimKeepsBehind(ops: seq<ClaimOp>, i: nat, j: nat)
    requires i < j < |ops| && Behind(ops, i, j) && ops[j].now < ops[i].now + CAPABILITY_TTL_MS
    ensures Behind(ops, i, j + 1)
  {
    var ids, more := InsertedIds(ops, i + 1, j, ops[i].requestId), InsertedIds(ops, i + 1, j + 1, ops[i].requestId);
    SubsetCardinality(ids, more);
    if |ids| < MAX_RECENT_RELAYS {
      HeldBeforeMore(TableAt(ops, j), EntryOf(ops[i]), ids, more);
      ClaimKeepsEntry(ops, j, EntryOf(ops[i]), more);
    }
  }

  lemma {:induction false} EntryStays(ops: seq<ClaimOp>, i: nat, j: nat)
    requires i < j <= |ops| && Inserts(ops, i)
    requires forall k :: i < k < j ==> ops[k].now < ops[i].now + CAPABILITY_TTL_MS
    ensures Behind(ops, i, j)
    decreases j
  {
    if j == i + 1 {
      InsertedIsLast(ops, i);
    } else {
      EntryStays(ops, i, j - 1);
      ClaimKeepsBehind(ops, i, j - 1);
    }
  }

  /**
  Bounded table: when an identifier inserted with one fingerprint is later accepted with another,
  thirty minutes have passed since the insertion, or at least 256 distinct other identifiers were
  inserted in between.
  */
  lemma BoundedTable(ops: seq<ClaimOp>, i: nat, j: nat)
    requires i < j < |ops| && Inserts(ops, i) && Admits(TableAt(ops, j), ops[j])
    requires ops[j].requestId == ops[i].requestId && ops[j].fingerprint != ops[i].fingerprint
    requires forall k :: i < k < j ==> ops[k].now <= ops[j].now
    ensures ops[j].now >= ops[i].now + CAPABILITY_TTL_MS
      || |InsertedIds(ops, i + 1, j, ops[i].requestId)| >= MAX_RECENT_RELAYS
  {
    var ids := InsertedIds(ops, i + 1, j, ops[i].requestId);
    if ops[j].now < ops[i].now + CAPABILITY_TTL_MS && |ids| < MAX_RECENT_RELAYS {
      EntryStays(ops, i, j);
      TableAlwaysValid(ops, j);
      var relays := TableAt(ops, j);
      LiveKeepsEntry(relays, EntryOf(ops[i]), ids, ops[j].now);
      LiveRelaysUnique(relays, ops[j].now);
      var live := LiveRelays(relays, ops[j].now);
      var p := HeldPosition(live, EntryOf(ops[i]), ids);
      FindRelayUnique(live, p);
      assert false;
    }
  }

  /** Every entry was put there by some claim. */
  lemma {:induction false} EntryOrigin(ops: seq<ClaimOp>, j: nat, entry: Correlation)
    requires j <= |ops| && entry in TableAt(ops, j)
    ensures exists m :: 0 <= m < j && Inserts(ops, m) && EntryOf(ops[m]) == entry
    decreases j
  {
    var before, op := TableAt(ops, j - 1), ops[j - 1];
    if entry in before {
      EntryOrigin(ops, j - 1, entry);
    } else {
      LiveRelaysMembers(before, op.now);
      assert Inserts(ops, j - 1) && EntryOf(ops[j - 1]) == entry;
    }
  }

  /** An accepted claim stands behind an entry with its own fingerprint, new or inherited from an earlier claim. */
  lemma ClaimOrigin(ops: seq<ClaimOp>, i: nat) returns (m: nat)
    requires i < |ops| && Admits(TableAt(ops, i), ops[i])
    ensures m <= i && Inserts(ops, m) && ops[m].requestId == ops[i].requestId
      && ops[m].fingerprint == ops[i].fingerprint
    ensures ops[i].now < ops[m].now + CAPABILITY_TTL_MS
  {
    var relays := TableAt(ops, i);
    var existing := FindRelay(LiveRelays(relays, ops[i].now), ops[i].requestId);
    if existing.None? {
      m := i;
    } else {
      FindRelayFinds(LiveRelays(relays, ops[i].now), ops[i].requestId);
      LiveRelaysMembers(relays, ops[i].now);
      EntryOrigin(ops, i, existing.value);
      m :| 0 <= m < i && Inserts(ops, m) && EntryOf(ops[m]) == existing.value;
    }
  }

  /** Claim m put the correlation that claim i relied on; by claim j it had expired or was pushed out. */
  ghost predicate PushedOut(claims: seq<ClaimOp>, m: nat, i: int, j: int) {
    && m <= i < j < |claims| && Inserts(claims, m)
    && claims[m].requestId == claims[i].requestId && claims[m].fingerprint == claims[i].fingerprint
    && (claims[j].now >= claims[m].now + CAPABILITY_TTL_MS
      || |InsertedIds(claims, m + 1, j, claims[i].requestId)| >= MAX_RECENT_RELAYS)
  }

  /**
  Two accepted claims of one identifier with different content: the correlation behind the earlier
  claim had expired, or had been pushed out by 256 other identifiers.
  */
  lemma ConflictNeedsEviction(ops: seq<ClaimOp>, i: nat, j: nat) returns (m: nat)
    requires i < j < |ops| && Admits(TableAt(ops, i), ops[i]) && Admits(TableAt(ops, j), ops[j])
    requires ops[j].requestId == ops[i].requestId && ops[j].fingerprint != ops[i].fingerprint
    requires forall k :: 0 <= k < j ==> ops[k].now <= ops[j].now
    ensures PushedOut(ops, m, i, j)
  {
    m := ClaimOrigin(ops, i);
    BoundedTable(ops, m, j);
  }

  // ----- exactly when content may change -----

  /** Clock readings of the claims from i to j do not go backwards. */
  ghost predicate Nondecreasing(ops: seq<ClaimOp>, i: nat, j: nat)
    requires i <= j < |ops|
  {
    forall a, b :: i <= a <= b <= j ==> ops[a].now <= ops[b].now
  }

  /** No claim after i and before j inserted its identifier again: any claims of it were retries or refused. */
  ghost predicate LastInsertion(ops: seq<ClaimOp>, i: nat, j: nat)
    requires i < j <= |ops|
  {
    Inserts(ops, i) && forall k :: i < k < j && Inserts(ops, k) ==> ops[k].requestId != ops[i].requestId
  }

  /** The table after one claim: a new entry at the end, the live entries for a retry, nothing changed on refusal. */
  function NextTable(relays: seq<Correlation>, op: ClaimOp): seq<Correlation> {
    var live := LiveRelays(relays, op.now);
    if FindRelay(live, op.requestId).None? then LastN(live + [EntryOf(op)], MAX_RECENT_RELAYS)
    else if Admits(relays, op) then live
    else relays
  }

  lemma TableAfter(ops: seq<ClaimOp>, j: nat)
    requires j < |ops|
    ensures TableAt(ops, j + 1) == NextTable(TableAt(ops, j), ops[j])
  {
  }

  /**
  Entries of the next table were there before or were just inserted; an insertion leaves no other entry of its
  identifier.
  */
  lemma NextTableEntry(relays: seq<Correlation>, op: ClaimOp, entry: Correlation)
    requires entry in NextTable(relays, op)
    ensures var inserted := FindRelay(LiveRelays(relays, op.now), op.requestId).None?;
      && (entry in relays || (inserted && entry == EntryOf(op)))
      && (inserted && entry.requestId == op.requestId ==> entry == EntryOf(op))
      && (entry == EntryOf(op) || !Admits(relays, op) || op.now < entry.expiresAt)
  {
    var live := LiveRelays(relays, op.now);
    LiveRelaysMembers(relays, op.now);
    FindRelayFinds(live, op.requestId);
    if entry in live {
      var k :| 0 <= k < |live| && live[k] == entry;
      assert live[k].requestId in Ids(live);
    }
  }

  /** While an insertion is the last of its identifier, the table holds no other entry for it. */
  lemma {:induction false} OnlyLastEntry(ops: seq<ClaimOp>, i: nat, j: nat, entry: Correlation)
    requires i < j <= |ops| && LastInsertion(ops, i, j)
    requires entry in TableAt(ops, j) && entry.requestId == ops[i].requestId
    ensures entry == EntryOf(ops[i])
    decreases j
  {
    TableAfter(ops, j - 1);
    NextTableEntry(TableAt(ops, j - 1), ops[j - 1], entry);
    if i < j - 1 && entry in TableAt(ops, j - 1) {
      OnlyLastEntry(ops, i, j - 1, entry);
    }
  }

  /** The entry is in the table; every identifier of `ids` stands behind it, and nothing behind it expires sooner. */
  ghost predicate Followed(relays: seq<Correlation>, entry: Correlation, ids: set<string>) {
    exists p :: 0 <= p < |relays| && relays[p] == entry && TailHolds(relays[p..], entry, ids)
  }

  ghost predicate TailHolds(tail: seq<Correlation>, entry: Correlation, ids: set<string>)
    requires tail != []
  {
    ids <= Ids(tail[1..]) && forall k :: 0 <= k < |tail| ==> entry.expiresAt <= tail[k].expiresAt
  }

  /** If claim i's entry is still in the table, all identifiers inserted since stand behind it. */
  ghost predicate Trailing(ops: seq<ClaimOp>, i: nat, j: nat)
    requires i < j <= |ops|
  {
    EntryOf(ops[i]) in TableAt(ops, j) ==>
      Followed(TableAt(ops, j), EntryOf(ops[i]), InsertedIds(ops, i + 1, j, ops[i].requestId))
  }

  /** Pruning keeps a tail of unexpired entries as it is. */
  lemma {:induction false} LiveKeepsTail(relays: seq<Correlation>, p: nat, now: int) returns (q: nat)
    requires p <= |relays| && forall k :: p <= k < |relays| ==> now < relays[k].expiresAt
    ensures q <= |LiveRelays(relays, now)| && LiveRelays(relays, now)[q..] == relays[p..]
  {
    if relays == [] {
      q := 0;
    } else if p == 0 {
      var _ := LiveKeepsTail(relays[1..], 0, now);
      AllLive(relays, now);
      q := 0;
    } else {
      q := LiveKeepsTail(relays[1..], p - 1, now);
      assert relays[1..][p - 1..] == relays[p..];
      if now < relays[0].expiresAt {
        var live := LiveRelays(relays[1..], now);
        assert ([relays[0]] + live)[q + 1..] == live[q..];
        q := q + 1;
      }
    }
  }

  lemma {:induction false} AllLive(relays: seq<Correlation>, now: int)
    requires forall k :: 0 <= k < |relays| ==> now < relays[k].expiresAt
    ensures LiveRelays(relays, now) == relays
  {
    if relays != [] {
      AllLive(relays[1..], now);
    }
  }

  lemma FollowedLive(relays: seq<Correlation>, entry: Correlation, ids: set<string>, now: int)
    requires Followed(relays, entry, ids) && now < entry.expiresAt
    ensures Followed(LiveRelays(relays, now), entry, ids)
  {
    var p :| 0 <= p < |relays| && relays[p] == entry && TailHolds(relays[p..], entry, ids);
    forall k | p <= k < |relays| ensures now < relays[k].expiresAt {
      assert relays[k] == relays[p..][k - p];
    }
    var q := LiveKeepsTail(relays, p, now);
    var live := LiveRelays(relays, now);
    assert live[q] == live[q..][0] == relays[p..][0];
  }

  lemma TailGrows(tail: seq<Correlation>, entry: Correlation, ids: set<string>, added: Correlation)
    requires tail != [] && TailHolds(tail, entry, ids) && entry.expiresAt <= added.expiresAt
    ensures TailHolds(tail + [added], entry, ids + {added.requestId})
  {
    assert (tail + [added])[1..] == tail[1..] + [added];
    IdsAppend(tail[1..], added);
  }

  lemma UniquePlace(relays: seq<Correlation>, p: int, q: int)
    requires UniqueIds(relays) && 0 <= p < |relays| && 0 <= q < |relays| && relays[p] == relays[q]
    ensures p == q
  {
  }

  lemma FollowedGrows(live: seq<Correlation>, entry: Correlation, ids: set<string>, added: Correlation)
    requires Followed(live, entry, ids) && entry.expiresAt <= added.expiresAt
    ensures Followed(live + [added], entry, ids + {added.requestId})
  {
    var p :| 0 <= p < |live| && live[p] == entry && TailHolds(live[p..], entry, ids);
    TailGrows(live[p..], entry, ids, added);
    assert (live + [added])[p] == entry && (live + [added])[p..] == live[p..] + [added];
  }

  lemma DropDrop(relays: seq<Correlation>, dropped: nat, k: nat)
    requires dropped + k <= |relays|
    ensures relays[dropped..][k..] == relays[dropped + k..]
  {
  }

  lemma PlaceInEnd(relays: seq<Correlation>, p: nat, dropped: nat)
    requires UniqueIds(relays) && p < |relays| && dropped <= |relays| && relays[p] in relays[dropped..]
    ensures dropped <= p && relays[dropped..][p - dropped] == relays[p]
  {
    var k :| 0 <= k < |relays[dropped..]| && relays[dropped..][k] == relays[p];
    UniquePlace(relays, k + dropped, p);
  }

  lemma FollowedEnd(relays: seq<Correlation>, entry: Correlation, ids: set<string>, dropped: nat)
    requires Followed(relays, entry, ids) && UniqueIds(relays)
    requires dropped <= |relays| && entry in relays[dropped..]
    ensures Followed(relays[dropped..], entry, ids)
  {
    var p :| 0 <= p < |relays| && relays[p] == entry && TailHolds(relays[p..], entry, ids);
    PlaceInEnd(relays, p, dropped);
    DropDrop(relays, dropped, p - dropped);
  }

  lemma FollowedInserted(live: seq<Correlation>, entry: Correlation, ids: set<string>, added: Correlation)
    requires Followed(live, entry, ids) && entry.expiresAt <= added.expiresAt
    requires UniqueIds(live + [added])
    requires entry in LastN(live + [added], MAX_RECENT_RELAYS)
    ensures Followed(LastN(live + [added], MAX_RECENT_RELAYS), entry, ids + {added.requestId})
  {
    var longer := live + [added];
    var kept := LastN(longer, MAX_RECENT_RELAYS);
    FollowedGrows(live, entry, ids, added);
    assert kept == longer[|longer| - |kept|..];
    FollowedEnd(longer, entry, ids + {added.requestId}, |longer| - |kept|);
  }

  /** One claim: if the entry stays, it keeps what stands behind it and an inserted identifier joins. */
  lemma FollowedStep(relays: seq<Correlation>, op: ClaimOp, entry: Correlation, ids: set<string>)
    requires TableInvariant(relays) && Followed(relays, entry, ids)
    requires entry.expiresAt <= EntryOf(op).expiresAt && entry.requestId != op.requestId
      && entry in NextTable(relays, op)
    ensures Followed(NextTable(relays, op), entry,
                     ids + if FindRelay(LiveRelays(relays, op.now), op.requestId).None? then {op.requestId} else {})
  {
    var live := LiveRelays(relays, op.now);
    NextTableEntry(relays, op, entry);
    FindRelayFinds(live, op.requestId);
    if FindRelay(live, op.requestId).None? {
      FollowedLive(relays, entry, ids, op.now);
      LiveRelaysUnique(relays, op.now);
      LiveRelaysMembers(relays, op.now);
      UniqueAppend(live, EntryOf(op));
      FollowedInserted(live, entry, ids, EntryOf(op));
    } else if Admits(relays, op) {
      FollowedLive(relays, entry, ids, op.now);
      assert ids + {} == ids;
    } else {
      assert ids + {} == ids;
    }
  }

  /** A retry or a refused claim of the entry's own identifier adds nothing behind it. */
  lemma FollowedRetry(relays: seq<Correlation>, op: ClaimOp, entry: Correlation, ids: set<string>)
    requires Followed(relays, entry, ids) && FindRelay(LiveRelays(relays, op.now), op.requestId).Some?
    requires entry in NextTable(relays, op)
    ensures Followed(NextTable(relays, op), entry, ids)
  {
    if Admits(relays, op) {
      LiveRelaysMembers(relays, op.now);
      FollowedLive(relays, entry, ids, op.now);
    }
  }

  lemma InsertedIdsStep(ops: seq<ClaimOp>, i: nat, j: nat, except: string)
    requires i <= j < |ops|
    ensures InsertedIds(ops, i, j + 1, except) ==
      InsertedIds(ops, i, j, except) + if Inserts(ops, j) && ops[j].requestId != except then {ops[j].requestId} else {}
  {
    var ids, more := InsertedIds(ops, i, j, except), InsertedIds(ops, i, j + 1, except);
    forall k | i <= k < j && Inserts(ops, k) && ops[k].requestId != except ensures ops[k].requestId in more {}
    assert Inserts(ops, j) && ops[j].requestId != except ==> ops[j].requestId in more;
  }

  lemma TrailingStarts(ops: seq<ClaimOp>, i: nat)
    requires i < |ops| && Inserts(ops, i)
    ensures Trailing(ops, i, i + 1)
  {
    var relays := TableAt(ops, i + 1);
    TableAfter(ops, i);
    var p := |relays| - 1;
    assert relays[p] == EntryOf(ops[i]) && relays[p..] == [EntryOf(ops[i])];
    assert InsertedIds(ops, i + 1, i + 1, ops[i].requestId) == {};
  }

  lemma TrailingStep(ops: seq<ClaimOp>, i: nat, j: nat)
    requires i < j < |ops| && Trailing(ops, i, j) && ops[i].now <= ops[j].now
    requires Inserts(ops, j) ==> ops[j].requestId != ops[i].requestId
    ensures Trailing(ops, i, j + 1)
  {
    var entry, relays := EntryOf(ops[i]), TableAt(ops, j);
    TableAfter(ops, j);
    InsertedIdsStep(ops, i + 1, j, ops[i].requestId);
    if entry in NextTable(relays, ops[j]) {
      NextTableEntry(relays, ops[j], entry);
      TableAlwaysValid(ops, j);
      var ids := InsertedIds(ops, i + 1, j, ops[i].requestId);
      if ops[j].requestId == ops[i].requestId {
        FollowedRetry(relays, ops[j], entry, ids);
        assert ids + {} == ids;
      } else {
        FollowedStep(relays, ops[j], entry, ids);
      }
    }
  }

  lemma UniqueAppend(live: seq<Correlation>, added: Correlation)
    requires UniqueIds(live) && added.requestId !in Ids(live)
    ensures UniqueIds(live + [added])
  {
    forall k | 0 <= k < |live| ensures live[k].requestId in Ids(live) {}
  }

  lemma ClaimBetween(ops: seq<ClaimOp>, i: nat, j: nat, k: nat)
    requires i < k < j < |ops| && LastInsertion(ops, i, j) && Nondecreasing(ops, i, j)
    ensures ops[i].now <= ops[k].now && (Inserts(ops, k) ==> ops[k].requestId != ops[i].requestId)
  {
  }

  lemma TrailingAlways(ops: seq<ClaimOp>, i: nat, j: nat)
    requires i < j < |ops| && LastInsertion(ops, i, j) && Nondecreasing(ops, i, j)
    ensures Trailing(ops, i, j)
  {
    TrailingStarts(ops, i);
    for k := i + 1 to j
      invariant Trailing(ops, i, k)
    {
      ClaimBetween(ops, i, j, k);
      TrailingStep(ops, i, k);
    }
  }

  /** An entry still in the table has fewer than 256 other identifiers inserted after it. */
  lemma HeldMeansFewInserted(ops: seq<ClaimOp>, i: nat, j: nat)
    requires i < j < |ops| && LastInsertion(ops, i, j) && Nondecreasing(ops, i, j)
    ensures EntryOf(ops[i]) in TableAt(ops, j) ==> |InsertedIds(ops, i + 1, j, ops[i].requestId)| < MAX_RECENT_RELAYS
  {
    TrailingAlways(ops, i, j);
    var relays, ids := TableAt(ops, j), InsertedIds(ops, i + 1, j, ops[i].requestId);
    if EntryOf(ops[i]) in relays {
      var p :| 0 <= p < |relays| && relays[p] == EntryOf(ops[i]) && TailHolds(relays[p..], EntryOf(ops[i]), ids);
      TableAlwaysValid(ops, j);
      assert relays[p..][1..] == relays[p + 1..];
      SuffixCardinality(relays, p + 1);
      SubsetCardinality(ids, Ids(relays[p + 1..]));
    }
  }

  /**
  When content may change under an identifier, however often it was retried: with claim i the last to have
  inserted it, a claim with other content is admitted if and only if thirty minutes have passed since claim i
  or at least 256 distinct other identifiers were inserted since. A retry refreshes nothing.
  */
  lemma ContentMayChangeIff(ops: seq<ClaimOp>, i: nat, j: nat)
    requires i < j < |ops| && LastInsertion(ops, i, j) && Nondecreasing(ops, i, j)
    requires ops[j].requestId == ops[i].requestId && ops[j].fingerprint != ops[i].fingerprint
    ensures Admits(TableAt(ops, j), ops[j]) <==>
      || ops[j].now >= ops[i].now + CAPABILITY_TTL_MS
      || |InsertedIds(ops, i + 1, j, ops[i].requestId)| >= MAX_RECENT_RELAYS
  {
    var relays := TableAt(ops, j);
    var live := LiveRelays(relays, ops[j].now);
    if Admits(relays, ops[j]) {
      BoundedTable(ops, i, j);
    } else {
      FindRelayFinds(live, ops[j].requestId);
      LiveRelaysMembers(relays, ops[j].now);
      OnlyLastEntry(ops, i, j, FindRelay(live, ops[j].requestId).value);
      HeldMeansFewInserted(ops, i, j);
    }
  }

  lemma LiveOne(entry: Correlation, now: int)
    ensures LiveRelays([entry], now) == if entry.expiresAt > now then [entry] else []
  {
    assert LiveRelays([entry][1..], now) == [];
  }

  /**
  The failing side, for any two contents: retried as late as may be, and changed half an hour after the first
  claim.
  */
  lemma ChangedAfterRetry(id: string, first: string, second: string, t: int, retriedAt: int)
    requires t <= retriedAt < t + CAPABILITY_TTL_MS
    ensures var ops := [ClaimOp(t, id, first), ClaimOp(retriedAt, id, first),
      ClaimOp(t + CAPABILITY_TTL_MS, id, second)];
      Admits(TableAt(ops, 1), ops[1]) && !Inserts(ops, 1) && Admits(TableAt(ops, 2), ops[2])
  {
    var ops := [ClaimOp(t, id, first), ClaimOp(retriedAt, id, first), ClaimOp(t + CAPABILITY_TTL_MS, id, second)];
    assert TableAt(ops, 0) == [] && LiveRelays([], t) == [];
    assert TableAt(ops, 1) == [EntryOf(ops[0])];
    LiveOne(EntryOf(ops[0]), retriedAt);
    assert TableAt(ops, 2) == [EntryOf(ops[0])];
    LiveOne(EntryOf(ops[0]), t + CAPABILITY_TTL_MS);
  }

  // ----- the table inside a session record -----

  /** The accepted claims among the first i events of a run. */
  function ClaimOps(r: Record, es: seq<Event>, i: nat): seq<ClaimOp>
    requires i <= |es|
  {
    if i == 0 then []
    else
      ClaimOps(r, es, i - 1) +
      if es[i - 1].ClaimEvent? && Accepted(r, es, i - 1)
      then [ClaimOp(es[i - 1].now, es[i - 1].requestId, es[i - 1].fingerprint)]
      else []
  }

  lemma {:induction false} TableAtPrefix(ops: seq<ClaimOp>, more: seq<ClaimOp>, k: nat)
    requires k <= |ops|
    ensures TableAt(ops + more, k) == TableAt(ops, k)
  {
    if k > 0 {
      TableAtPrefix(ops, more, k - 1);
    }
  }

  lemma TableAtSnoc(ops: seq<ClaimOp>, op: ClaimOp)
    ensures TableAt(ops + [op], |ops| + 1) ==
      if Admits(TableAt(ops, |ops|), op)
      then ClaimTable(TableAt(ops, |ops|), op.requestId, op.fingerprint, op.now)
      else TableAt(ops, |ops|)
  {
    TableAtPrefix(ops, [op], |ops|);
  }

  /** Only an accepted claim touches the table, and the table admits it. */
  lemma RecordStep(r: Record, e: Event)
    ensures if e.ClaimEvent? && Step(r, e).Ok?
      then Admits(r.recentRelays, ClaimOp(e.now, e.requestId, e.fingerprint))
        && Apply(r, e).recentRelays == ClaimTable(r.recentRelays, e.requestId, e.fingerprint, e.now)
      else Apply(r, e).recentRelays == r.recentRelays
  {
  }

  ghost predicate AllAdmitted(ops: seq<ClaimOp>) {
    forall k :: 0 <= k < |ops| ==> Admits(TableAt(ops, k), ops[k])
  }

  lemma AdmittedStill(ops: seq<ClaimOp>, op: ClaimOp, k: nat)
    requires k < |ops| && Admits(TableAt(ops, k), ops[k])
    ensures Admits(TableAt(ops + [op], k), (ops + [op])[k])
  {
    TableAtPrefix(ops, [op], k);
    assert (ops + [op])[k] == ops[k];
  }

  lemma AdmittedLast(ops: seq<ClaimOp>, op: ClaimOp)
    requires Admits(TableAt(ops, |ops|), op)
    ensures Admits(TableAt(ops + [op], |ops|), (ops + [op])[|ops|])
  {
  }

  lemma AllAdmittedSnoc(ops: seq<ClaimOp>, op: ClaimOp)
    requires AllAdmitted(ops) && Admits(TableAt(ops, |ops|), op)
    ensures AllAdmitted(ops + [op])
  {
    forall k | 0 <= k <= |ops| ensures Admits(TableAt(ops + [op], k), (ops + [op])[k]) {
      if k < |ops| {
        AdmittedStill(ops, op, k);
      } else {
        AdmittedLast(ops, op);
      }
    }
  }

  /** A table that follows the claims goes on following them when one more is admitted. */
  lemma TableFollows(relays: seq<Correlation>, ops: seq<ClaimOp>, op: ClaimOp)
    requires relays == TableAt(ops, |ops|) && AllAdmitted(ops) && Admits(relays, op)
    ensures ClaimTable(relays, op.requestId, op.fingerprint, op.now) == TableAt(ops + [op], |ops + [op]|)
    ensures AllAdmitted(ops + [op])
  {
    TableAtSnoc(ops, op);
    AllAdmittedSnoc(ops, op);
  }

  lemma RecordTableStep(r: Record, e: Event, ops: seq<ClaimOp>)
    requires r.recentRelays == TableAt(ops, |ops|) && AllAdmitted(ops)
    ensures var longer := ops + if e.ClaimEvent? && Step(r, e).Ok? then [ClaimOp(e.now, e.requestId, e.fingerprint)]
      else [];
      Apply(r, e).recentRelays == TableAt(longer, |longer|) && AllAdmitted(longer)
  {
    RecordStep(r, e);
    if e.ClaimEvent? && Step(r, e).Ok? {
      TableFollows(r.recentRelays, ops, ClaimOp(e.now, e.requestId, e.fingerprint));
    } else {
      assert ops + [] == ops;
    }
  }

  /** The record's table is the table of its accepted claims, and the table admits each of them. */
  lemma RecordTable(r: Record, es: seq<Event>, i: nat)
    requires i <= |es| && r.recentRelays == []
    ensures At(r, es, i).recentRelays == TableAt(ClaimOps(r, es, i), |ClaimOps(r, es, i)|)
    ensures AllAdmitted(ClaimOps(r, es, i))
  {
    var record, ops := r, [];
    for k := 0 to i
      invariant record == At(r, es, k) && ops == ClaimOps(r, es, k)
      invariant record.recentRelays == TableAt(ops, |ops|) && AllAdmitted(ops)
    {
      RecordTableStep(record, es[k], ops);
      record, ops := At(r, es, k + 1), ClaimOps(r, es, k + 1);
    }
  }
}
