/** The expiry selection of getDataFromRedis: every key returned by the
    namespace scan is split on ':', its third segment is read as an int64
    timestamp and compared with one instant `now`; a due key goes to the delete
    list and its second segment, the delivery-execution id, to the result. */
module Expiry {
  import opened GoStrings
  import opened GoStrconv

  /** strings.Split(key, ":") */
  function Segments(key: string): seq<string> { Split(key, ':') }

  /** parts[2] exists: the key has at least two ':' (see TimestampSegmentIffTwoColons). */
  predicate HasTimestampSegment(key: string) { |Segments(key)| >= 3 }

  /** parts[1], the delivery-execution id: the ':'-free piece after the first ':'. */
  function IdOf(key: string): (id: string)
    requires |Segments(key)| >= 2
    ensures ':' !in id
    ensures Segments(key)[0] + [':'] + id <= key
  {
    JoinPrefix(Segments(key), ':');
    Segments(key)[1]
  }

  /** The key's timestamp parses and `now` has reached it: the third segment is a
      signed decimal literal whose value is at most `now` (see IsDueIff for the converse). */
  predicate IsDue(key: string, now: int64): (due: bool)
    ensures due ==>
              HasTimestampSegment(key) && IsDecimalLiteral(Segments(key)[2]) &&
              LiteralValue(Segments(key)[2]) <= now
  {
    HasTimestampSegment(key) &&
    var t := ParseInt(Segments(key)[2]);
    ParseIntAccepts(Segments(key)[2]);
    t.Parsed? && now >= t.value
  }

  predicate AllHaveTimestampSegment(keys: seq<string>)
  {
    forall i :: 0 <= i < |keys| ==> HasTimestampSegment(keys[i])
  }

  /** The due keys, in scan order. */
  function DueKeys(keys: seq<string>, now: int64): (due: seq<string>)
    ensures forall j :: 0 <= j < |due| ==> IsDue(due[j], now)
    decreases |keys|
  {
    if |keys| == 0 then []
    else
      var last := keys[|keys| - 1];
      DueKeys(keys[..|keys| - 1], now) + (if IsDue(last, now) then [last] else [])
  }

  /** The id of each key, position by position. */
  function Ids(keys: seq<string>): (ids: seq<string>)
    requires forall j :: 0 <= j < |keys| ==> |Segments(keys[j])| >= 2
    ensures |ids| == |keys|
    ensures forall j :: 0 <= j < |keys| ==> ids[j] == IdOf(keys[j])
    decreases |keys|
  {
    if |keys| == 0 then [] else Ids(keys[..|keys| - 1]) + [IdOf(keys[|keys| - 1])]
  }

  /** The first key whose parts[2] does not exist: the key the loop panics on. */
  function FirstWithoutTimestamp(keys: seq<string>): (i: nat)
    requires !AllHaveTimestampSegment(keys)
    ensures i < |keys| && !HasTimestampSegment(keys[i])
    ensures forall j :: 0 <= j < i ==> HasTimestampSegment(keys[j])
  {
    if !HasTimestampSegment(keys[0]) then 0 else 1 + FirstWithoutTimestamp(keys[1..])
  }

  /** What getDataFromRedis hands on: the keys passed to Del and the ids it returns. */
  datatype Scan = Scan(expiredKeys: seq<string>, deliveryExecutionIds: seq<string>)

  /** The loop either finishes or panics at parts[2] on a key with fewer than
      three segments; a panic ends the process before Del and before publishing. */
  datatype ScanOutcome = Completed(scan: Scan) | IndexOutOfRange(key: string)

  /** Reference definition of the selection, filter first and ids second. */
  function ExpirySelection(keys: seq<string>, now: int64): ScanOutcome
  {
    if AllHaveTimestampSegment(keys) then
      var due := DueKeys(keys, now);
      Completed(Scan(due, Ids(due)))
    else
      IndexOutOfRange(keys[FirstWithoutTimestamp(keys)])
  }

  /** One more iteration of the loop extends the selection by the key it visits, if due. */
  lemma DueKeysSnoc(keys: seq<string>, i: nat, now: int64)
    requires i < |keys| && AllHaveTimestampSegment(keys[..i]) && HasTimestampSegment(keys[i])
    ensures AllHaveTimestampSegment(keys[..i + 1])
    ensures DueKeys(keys[..i + 1], now) == DueKeys(keys[..i], now) + (if IsDue(keys[i], now) then [keys[i]] else [])
  {
    assert keys[..i + 1][..i] == keys[..i];
    assert forall j :: 0 <= j < i ==> keys[..i + 1][j] == keys[..i][j];
  }

  lemma IdsSnoc(keys: seq<string>, key: string)
    requires forall j :: 0 <= j < |keys| ==> |Segments(keys[j])| >= 2
    requires |Segments(key)| >= 2
    ensures Ids(keys + [key]) == Ids(keys) + [IdOf(key)]
  {
    assert (keys + [key])[..|keys|] == keys;
  }

  lemma FirstWithoutTimestampAt(keys: seq<string>, i: nat)
    requires i < |keys| && AllHaveTimestampSegment(keys[..i]) && !HasTimestampSegment(keys[i])
    ensures !AllHaveTimestampSegment(keys) && FirstWithoutTimestamp(keys) == i
  {
    assert forall j :: 0 <= j < i ==> keys[..i][j] == keys[j];
  }

  /** The for-range loop of getDataFromRedis over the scanned keys. */
  method SelectExpired(keys: seq<string>, now: int64) returns (outcome: ScanOutcome)
    ensures outcome == ExpirySelection(keys, now)
  {
    var expiredKeys: seq<string> := [];
    var deliveryExecutionIds: seq<string> := [];
    var i := 0;
    while i < |keys|
      invariant 0 <= i <= |keys|
      invariant AllHaveTimestampSegment(keys[..i])
      invariant expiredKeys == DueKeys(keys[..i], now)
      invariant deliveryExecutionIds == Ids(expiredKeys)
    {
      var key := keys[i];
      var parts := Split(key, ':');
      if |parts| < 3 {
        FirstWithoutTimestampAt(keys, i);
        return IndexOutOfRange(key);
      }
      var timestamp := ParseInt(parts[2]);
      DueKeysSnoc(keys, i, now);
      assert IsDue(key, now) <==> timestamp.Parsed? && now >= timestamp.value;
      if timestamp.Parsed? {
        if now >= timestamp.value {
          IdsSnoc(expiredKeys, key);
          assert parts[1] == IdOf(key);
          expiredKeys := expiredKeys + [key];
          deliveryExecutionIds := deliveryExecutionIds + [parts[1]];
        }
      }
      i := i + 1;
    }
    assert keys[..i] == keys;
    outcome := Completed(Scan(expiredKeys, deliveryExecutionIds));
  }

  // ---- properties of the selection ----

  /** The loop reaches its end exactly when every key has a third segment;
      otherwise it stops at the first key that has none. */
  lemma CompletesIff(keys: seq<string>, now: int64)
    ensures ExpirySelection(keys, now).Completed? <==> AllHaveTimestampSegment(keys)
    ensures ExpirySelection(keys, now).IndexOutOfRange? ==>
      exists i :: 0 <= i < |keys| && keys[i] == ExpirySelection(keys, now).key &&
        !HasTimestampSegment(keys[i]) && forall j :: 0 <= j < i ==> HasTimestampSegment(keys[j])
  {
    if !AllHaveTimestampSegment(keys) {
      var i := FirstWithoutTimestamp(keys);
      assert keys[i] == ExpirySelection(keys, now).key;
    }
  }

  /** Fewer than two ':' is exactly what leaves parts[2] out of range. */
  lemma TimestampSegmentIffTwoColons(key: string)
    ensures HasTimestampSegment(key) <==> multiset(key)[':'] >= 2
  {
    SplitCount(key, ':');
  }

  /** Every timestamp is read the way ParseInt(s, 10, 64) accepts it: a key is due
      iff its third segment is a signed decimal literal within int64 whose value is
      at most `now`. */
  lemma IsDueIff(key: string, now: int64)
    ensures IsDue(key, now) <==>
      HasTimestampSegment(key) && IsDecimalLiteral(Segments(key)[2]) &&
      InInt64(LiteralValue(Segments(key)[2])) && LiteralValue(Segments(key)[2]) <= now
  {
    if HasTimestampSegment(key) {
      ParseIntAccepts(Segments(key)[2]);
    }
  }

  /** A position of the scan is selected iff its key is due. */
  lemma {:induction false} DueKeysMembership(keys: seq<string>, now: int64)
    ensures forall k :: k in DueKeys(keys, now) <==> k in keys && IsDue(k, now)
    decreases |keys|
  {
    if |keys| > 0 {
      var init := keys[..|keys| - 1];
      DueKeysMembership(init, now);
      assert keys == init + [keys[|keys| - 1]];
    }
  }

  /** Selecting from a concatenation selects from each half, at the same instant. */
  lemma {:induction false} DueKeysAppend(a: seq<string>, b: seq<string>, now: int64)
    ensures DueKeys(a + b, now) == DueKeys(a, now) + DueKeys(b, now)
    decreases |b|
  {
    if |b| > 0 {
      var init := b[..|b| - 1];
      assert (a + b)[..|a + b| - 1] == a + init;
      DueKeysAppend(a, init, now);
    } else {
      assert a + b == a;
    }
  }

  /** The positions of the scan that are selected, in increasing order. */
  function DueIndices(keys: seq<string>, now: int64): (idx: seq<nat>)
    ensures forall j :: 0 <= j < |idx| ==> idx[j] < |keys|
    ensures forall j, l :: 0 <= j < l < |idx| ==> idx[j] < idx[l]
    ensures forall i :: 0 <= i < |keys| ==> (IsDue(keys[i], now) <==> i in idx)
    decreases |keys|
  {
    if |keys| == 0 then []
    else
      var n := |keys| - 1;
      var init := keys[..n];
      var rest := DueIndices(init, now);
      assert forall i :: 0 <= i < n ==> keys[i] == init[i];
      if IsDue(keys[n], now) then
        var idx := rest + [n];
        assert forall i :: 0 <= i < n ==> (i in idx <==> i in rest);
        idx
      else
        rest
  }

  /** The selected positions pick out the due keys, one by one. */
  lemma {:induction false} DueIndicesPickDueKeys(keys: seq<string>, now: int64)
    ensures |DueIndices(keys, now)| == |DueKeys(keys, now)|
    ensures forall j :: 0 <= j < |DueIndices(keys, now)| ==>
      keys[DueIndices(keys, now)[j]] == DueKeys(keys, now)[j]
    decreases |keys|
  {
    if |keys| > 0 {
      var n := |keys| - 1;
      var init := keys[..n];
      DueIndicesPickDueKeys(init, now);
      var rest, due := DueIndices(init, now), DueKeys(init, now);
      var tail := if IsDue(keys[n], now) then [n] else [];
      assert DueIndices(keys, now) == rest + tail;
      assert DueKeys(keys, now) == due + (if IsDue(keys[n], now) then [keys[n]] else []);
      forall j | 0 <= j < |rest| ensures keys[rest[j]] == due[j] {
        assert keys[rest[j]] == init[rest[j]];
      }
    }
  }

  /** The delete list is the scan restricted to an increasing set of positions,
      exactly the positions of the due keys, and the ids follow the same positions. */
  lemma OrderPreserved(keys: seq<string>, now: int64)
    requires AllHaveTimestampSegment(keys)
    ensures var out := ExpirySelection(keys, now).scan;
      var idx := DueIndices(keys, now);
      |idx| == |out.expiredKeys| == |out.deliveryExecutionIds| &&
      (forall j :: 0 <= j < |idx| ==>
        idx[j] < |keys| && out.expiredKeys[j] == keys[idx[j]] && out.deliveryExecutionIds[j] == IdOf(keys[idx[j]])) &&
      (forall j, l :: 0 <= j < l < |idx| ==> idx[j] < idx[l]) &&
      (forall i :: 0 <= i < |keys| ==> (IsDue(keys[i], now) <==> i in idx))
  {
    DueIndicesPickDueKeys(keys, now);
  }

  /** The i-th returned id is the second segment of the i-th deleted key, and every
      deleted key is a scanned key that is due. */
  lemma IdsPairWithDeletedKeys(keys: seq<string>, now: int64)
    requires AllHaveTimestampSegment(keys)
    ensures var out := ExpirySelection(keys, now).scan;
      |out.deliveryExecutionIds| == |out.expiredKeys| &&
      (forall i :: 0 <= i < |out.expiredKeys| ==>
        out.expiredKeys[i] in keys && IsDue(out.expiredKeys[i], now) &&
        out.deliveryExecutionIds[i] == Segments(out.expiredKeys[i])[1])
  {
    DueKeysMembership(keys, now);
  }

  /** A key whose timestamp does not parse, or lies after `now`, is neither deleted
      nor the source of any returned id; a due key is deleted. */
  lemma SelectedIff(keys: seq<string>, now: int64, key: string)
    requires AllHaveTimestampSegment(keys) && key in keys
    ensures key in ExpirySelection(keys, now).scan.expiredKeys <==>
      ParseInt(Segments(key)[2]).Parsed? && now >= ParseInt(Segments(key)[2]).value
  {
    DueKeysMembership(keys, now);
  }

  /** Inserting a key that is not due (its timestamp does not parse, overflows
      int64, or lies after `now`) anywhere leaves the whole outcome unchanged. */
  lemma InertKeyIgnored(a: seq<string>, junk: string, b: seq<string>, now: int64)
    requires HasTimestampSegment(junk) && !IsDue(junk, now)
    ensures ExpirySelection(a + [junk] + b, now) == ExpirySelection(a + b, now)
  {
    DueKeysSkipInert(a, junk, b, now);
    AllHaveTimestampSegmentSkip(a, junk, b);
    if !AllHaveTimestampSegment(a + b) {
      FirstWithoutTimestampSkips(a, junk, b);
    }
  }

  lemma DueKeysSkipInert(a: seq<string>, junk: string, b: seq<string>, now: int64)
    requires !IsDue(junk, now)
    ensures DueKeys(a + [junk] + b, now) == DueKeys(a + b, now)
  {
    DueKeysAppend(a + [junk], b, now);
    DueKeysAppend(a, [junk], now);
    DueKeysAppend(a, b, now);
    assert DueKeys([junk], now) == [] by {
      assert [junk][..0] == [];
    }
  }

  lemma AllHaveTimestampSegmentSkip(a: seq<string>, junk: string, b: seq<string>)
    requires HasTimestampSegment(junk)
    ensures AllHaveTimestampSegment(a + [junk] + b) <==> AllHaveTimestampSegment(a + b)
  {
    var with, without := a + [junk] + b, a + b;
    if AllHaveTimestampSegment(without) {
      forall i | 0 <= i < |with| ensures HasTimestampSegment(with[i]) {
        if i < |a| { assert with[i] == without[i]; }
        else if i > |a| { assert with[i] == without[i - 1]; }
      }
    }
    if AllHaveTimestampSegment(with) {
      forall i | 0 <= i < |without| ensures HasTimestampSegment(without[i]) {
        if i < |a| { assert with[i] == without[i]; }
        else { assert with[i + 1] == without[i]; }
      }
    }
  }

  lemma FirstWithoutTimestampSkips(a: seq<string>, junk: string, b: seq<string>)
    requires HasTimestampSegment(junk) && !AllHaveTimestampSegment(a + b)
    ensures !AllHaveTimestampSegment(a + [junk] + b)
    ensures (a + [junk] + b)[FirstWithoutTimestamp(a + [junk] + b)] == (a + b)[FirstWithoutTimestamp(a + b)]
  {
    var with, without := a + [junk] + b, a + b;
    var i := FirstWithoutTimestamp(without);
    var i' := if i < |a| then i else i + 1;
    assert with[i'] == without[i];
    assert forall j :: 0 <= j < i' ==> HasTimestampSegment(with[j]) by {
      forall j | 0 <= j < i' ensures HasTimestampSegment(with[j]) {
        if j < |a| { assert with[j] == without[j]; }
        else if j > |a| { assert with[j] == without[j - 1]; }
      }
    }
  }

  /** One instant judges every key: a key due at `now` stays due at any later
      instant, so the selection at an earlier instant is the earlier-due part of
      the selection at a later one. */
  lemma {:induction false} LaterInstantSelectsMore(keys: seq<string>, earlier: int64, later: int64)
    requires earlier <= later
    ensures DueKeys(DueKeys(keys, later), earlier) == DueKeys(keys, earlier)
    decreases |keys|
  {
    if |keys| > 0 {
      var init := keys[..|keys| - 1];
      var last := keys[|keys| - 1];
      LaterInstantSelectsMore(init, earlier, later);
      var tail := if IsDue(last, later) then [last] else [];
      DueKeysAppend(DueKeys(init, later), tail, earlier);
      if IsDue(last, later) {
        assert [last][..0] == [];
      }
    }
  }

  /** Only parts[1] and parts[2] matter: segments after the timestamp are ignored. */
  lemma ExtraSegmentsIgnored(key: string, suffix: string, now: int64)
    requires HasTimestampSegment(key)
    ensures HasTimestampSegment(key + [':'] + suffix)
    ensures IdOf(key + [':'] + suffix) == IdOf(key)
    ensures IsDue(key + [':'] + suffix, now) == IsDue(key, now)
  {
    SplitAppend(key, ':', suffix);
  }

  /** A key as the external scheduler writes it: namespace, id and timestamp joined by ':'. */
  function TimerKey(ns: string, id: string, timestamp: string): string
  {
    ns + [':'] + id + [':'] + timestamp
  }

  /** A key written from ':'-free parts is judged on its timestamp part and yields its id part. */
  lemma TimerKeyVerdict(ns: string, id: string, timestamp: string, now: int64)
    requires ':' !in ns && ':' !in id && ':' !in timestamp
    ensures Segments(TimerKey(ns, id, timestamp)) == [ns, id, timestamp]
    ensures IdOf(TimerKey(ns, id, timestamp)) == id
    ensures IsDue(TimerKey(ns, id, timestamp), now) <==>
      ParseInt(timestamp).Parsed? && now >= ParseInt(timestamp).value
  {
    SplitFree(timestamp, ':');
    SplitAfterPiece(id, ':', timestamp);
    SplitAfterPiece(ns, ':', id + [':'] + timestamp);
    assert TimerKey(ns, id, timestamp) == ns + [':'] + (id + [':'] + timestamp);
  }

  /** "ns:a:5:x" is judged on "5" and yields id "a". */
  lemma ExtraSegmentsExample()
    ensures IdOf(TimerKey("ns", "a", "5") + ":x") == "a"
    ensures IsDue(TimerKey("ns", "a", "5") + ":x", 5)
    ensures !IsDue(TimerKey("ns", "a", "5") + ":x", 4)
  {
    TimerKeyVerdict("ns", "a", "5", 5);
    TimerKeyVerdict("ns", "a", "5", 4);
    assert ParseInt("5") == Parsed(5);
    ExtraSegmentsIgnored(TimerKey("ns", "a", "5"), "x", 5);
    ExtraSegmentsIgnored(TimerKey("ns", "a", "5"), "x", 4);
    assert TimerKey("ns", "a", "5") + [':'] + "x" == TimerKey("ns", "a", "5") + ":x";
  }

  lemma TwoKeySelection(first: string, second: string, now: int64)
    requires HasTimestampSegment(first) && HasTimestampSegment(second)
    requires IsDue(first, now) && !IsDue(second, now)
    ensures ExpirySelection([first, second], now) == Completed(Scan([first], [IdOf(first)]))
  {
    var keys := [first, second];
    assert AllHaveTimestampSegment(keys);
    assert keys[..1] == [first] && [first][..0] == [];
    assert DueKeys([first], now) == [first];
    assert DueKeys(keys, now) == [first];
    assert Ids([first]) == [IdOf(first)];
  }

  /** At now = 200, of ns:123:100 and ns:456:300 only the first is due;
      it alone is deleted and only its id is returned. */
  lemma TwoKeyExample()
    ensures ExpirySelection([TimerKey("ns", "123", "100"), TimerKey("ns", "456", "300")], 200) ==
      Completed(Scan([TimerKey("ns", "123", "100")], ["123"]))
  {
    TimerKeyVerdict("ns", "123", "100", 200);
    TimerKeyVerdict("ns", "456", "300", 200);
    assert ParseInt("100") == Parsed(100);
    assert ParseInt("300") == Parsed(300);
    TwoKeySelection(TimerKey("ns", "123", "100"), TimerKey("ns", "456", "300"), 200);
  }
}
