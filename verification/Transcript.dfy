/** Joining transcript messages to the nuclear store: by stable id, and for
    messages without one by normalized text, role and a window of time, looked
    up through a table of hashes of the encoded texts. */
module Transcript {
  import opened JsText
  import opened Utf8
  import opened Wrappers

  const JOIN_WINDOW_MS := 5 * 60 * 1000

  datatype Role = User | Assistant

  datatype Id = NumberId(n: int) | TextId(s: Text)

  datatype Nuclear = Nuclear(id: Id, role: Role, text: Text, ms: int)

  datatype Method = StableIdentifier | TimestampTextHash

  datatype Confidence = High | Ambiguous | NoConfidence

  type UnitText = t: Text | IsUnits(t) witness []

  /** Unicode normalization with white space folded, a digest of bytes, and the
      decimal text of a number. */
  datatype Host = Host(normalize: Text -> UnitText, digest: seq<Byte> -> Text, decimal: int -> Text)

  /** The three fields of a message that the join writes. */
  class Message {
    var nuclearMessageId: Option<Id>
    var joinMethod: Option<Method>
    var joinConfidence: Option<Confidence>

    constructor (stableId: Option<Id>)
      ensures Joined(stableId, None, None) == JoinState()
    {
      nuclearMessageId, joinMethod, joinConfidence := stableId, None, None;
    }

    function JoinState(): Joined
      reads this
    {
      Joined(nuclearMessageId, joinMethod, joinConfidence)
    }

    method SetJoin(record: Nuclear, how: Method)
      modifies this
      ensures JoinState() == Joined(Some(record.id), Some(how), Some(High))
    {
      nuclearMessageId, joinMethod, joinConfidence := Some(record.id), Some(how), Some(High);
    }
  }

  datatype Joined = Joined(id: Option<Id>, how: Option<Method>, confidence: Option<Confidence>)

  /** A message of the day, with what the join reads of it. */
  datatype Primary = Primary(session: Text, ts: Text, ms: int, role: Role, text: Text, stableId: Option<Id>)

  datatype Gap = MissingNuclear(id: Id) | SourceConflict(id: Id) | JoinAmbiguous(session: Text, ts: Text)

  datatype Conflict = Conflict(primary: Primary, nuclear: Nuclear)

  datatype Outcome = Outcome(joined: Joined, gaps: seq<Gap>, conflicts: seq<Conflict>)

  function Key(host: Host, id: Id): Text {
    match id case NumberId(n) => host.decimal(n) case TextId(s) => s
  }

  function TextHash(host: Host, text: Text): Text {
    host.digest(Utf8Bytes(host.normalize(text)))
  }

  /** The record a map from ids holds: the last of those with the key. */
  function LastById(host: Host, records: seq<Nuclear>, key: Text): Option<Nuclear> {
    if records == [] then None
    else
      var last := records[|records| - 1];
      if Key(host, last.id) == key then Some(last) else LastById(host, records[..|records| - 1], key)
  }

  predicate Reaches(p: Primary, r: Nuclear) {
    r.role == p.role && -JOIN_WINDOW_MS <= r.ms - p.ms <= JOIN_WINDOW_MS
  }

  function HasHash(host: Host, h: Text): Nuclear -> bool {
    (r: Nuclear) => TextHash(host, r.text) == h
  }

  function InReach(p: Primary): Nuclear -> bool {
    (r: Nuclear) => Reaches(p, r)
  }

  function Means(host: Host, p: Primary): Nuclear -> bool {
    (r: Nuclear) => host.normalize(r.text) == host.normalize(p.text) && Reaches(p, r)
  }

  function WithHash(host: Host, records: seq<Nuclear>, h: Text): seq<Nuclear> {
    Filter(HasHash(host, h), records)
  }

  /** The candidates the program finds, through the hash of the text. */
  function HashCandidates(host: Host, records: seq<Nuclear>, p: Primary): seq<Nuclear> {
    Filter(InReach(p), WithHash(host, records, TextHash(host, p.text)))
  }

  /** The candidates it is meant to find: one scan, comparing the texts. */
  function TextCandidates(host: Host, records: seq<Nuclear>, p: Primary): seq<Nuclear> {
    Filter(Means(host, p), records)
  }

  function OutcomeOf(host: Host, records: Option<seq<Nuclear>>, candidates: seq<Nuclear>, p: Primary): Outcome {
    if p.stableId.Some? then
      var kept := Joined(p.stableId, None, None);
      var found := LastById(host, if records.Some? then records.value else [], Key(host, p.stableId.value));
      if found.None? then Outcome(kept, [MissingNuclear(p.stableId.value)], [])
      else if found.value.role != p.role || host.normalize(found.value.text) != host.normalize(p.text) then
        Outcome(kept, [SourceConflict(p.stableId.value)], [Conflict(p, found.value)])
      else Outcome(Joined(Some(found.value.id), Some(StableIdentifier), Some(High)), [], [])
    else if records.None? then Outcome(Joined(None, None, Some(NoConfidence)), [], [])
    else if |candidates| == 1 then
      Outcome(Joined(Some(candidates[0].id), Some(TimestampTextHash), Some(High)), [], [])
    else if |candidates| > 1 then
      Outcome(Joined(None, Some(TimestampTextHash), Some(Ambiguous)), [JoinAmbiguous(p.session, p.ts)], [])
    else Outcome(Joined(None, None, Some(NoConfidence)), [], [])
  }

  function ByHash(host: Host, records: Option<seq<Nuclear>>, p: Primary): Outcome {
    OutcomeOf(host, records, if records.Some? then HashCandidates(host, records.value, p) else [], p)
  }

  /** The join as it is meant, by linear scan over the texts. */
  function ByText(host: Host, records: Option<seq<Nuclear>>, p: Primary): Outcome {
    OutcomeOf(host, records, if records.Some? then TextCandidates(host, records.value, p) else [], p)
  }

  function Gaps(host: Host, records: Option<seq<Nuclear>>, primary: seq<Primary>): seq<Gap> {
    if primary == [] then []
    else Gaps(host, records, primary[..|primary| - 1]) + ByHash(host, records, primary[|primary| - 1]).gaps
  }

  function Conflicts(host: Host, records: Option<seq<Nuclear>>, primary: seq<Primary>): seq<Conflict> {
    if primary == [] then []
    else Conflicts(host, records, primary[..|primary| - 1]) + ByHash(host, records, primary[|primary| - 1]).conflicts
  }

  /** The gaps and conflicts of the join are those of its messages. */
  lemma {:induction false} FoundIff(host: Host, records: Option<seq<Nuclear>>, primary: seq<Primary>, g: Gap,
                                    c: Conflict)
    ensures g in Gaps(host, records, primary) <==> exists p <- primary :: g in ByHash(host, records, p).gaps
    ensures c in Conflicts(host, records, primary) <==> exists p <- primary :: c in ByHash(host, records, p).conflicts
  {
    hide ByHash;
    if primary != [] {
      var before, last := primary[..|primary| - 1], primary[|primary| - 1];
      FoundIff(host, records, before, g, c);
      assert forall p :: p in primary <==> p in before || p == last;
    }
  }

  // ---- The tables and the join ----

  ghost predicate IdTable(host: Host, byId: map<Text, Nuclear>, records: seq<Nuclear>) {
    forall k :: (if k in byId then Some(byId[k]) else None) == LastById(host, records, k)
  }

  function Bucket(byHash: map<Text, seq<Nuclear>>, h: Text): seq<Nuclear> {
    if h in byHash then byHash[h] else []
  }

  ghost predicate HashTable(host: Host, byHash: map<Text, seq<Nuclear>>, records: seq<Nuclear>) {
    forall h :: Bucket(byHash, h) == WithHash(host, records, h)
  }

  method IndexById(host: Host, records: seq<Nuclear>) returns (byId: map<Text, Nuclear>)
    ensures IdTable(host, byId, records)
  {
    byId := map[];
    var i := 0;
    while i < |records|
      invariant 0 <= i <= |records|
      invariant IdTable(host, byId, records[..i])
    {
      assert records[..i + 1][..i] == records[..i];
      byId := byId[Key(host, records[i].id) := records[i]];
      i := i + 1;
    }
    assert records[..i] == records;
  }

  lemma WithHashSnoc(host: Host, records: seq<Nuclear>, r: Nuclear, h: Text)
    ensures WithHash(host, records + [r], h) ==
            WithHash(host, records, h) + if TextHash(host, r.text) == h then [r] else []
  {
    FilterAppend(HasHash(host, h), records, [r]);
  }

  lemma WithHashNone(host: Host, h: Text)
    ensures WithHash(host, [], h) == []
  {
  }

  method IndexByHash(host: Host, records: seq<Nuclear>) returns (byHash: map<Text, seq<Nuclear>>)
    ensures HashTable(host, byHash, records)
  {
    hide WithHash;
    byHash := map[];
    var i := 0;
    forall h { WithHashNone(host, h); }
    while i < |records|
      invariant 0 <= i <= |records|
      invariant HashTable(host, byHash, records[..i])
    {
      var record := records[i];
      var h := TextHash(host, record.text);
      assert records[..i + 1] == records[..i] + [record];
      forall h { WithHashSnoc(host, records[..i], record, h); }
      byHash := byHash[h := Bucket(byHash, h) + [record]];
      i := i + 1;
    }
    assert records[..i] == records;
  }

  predicate Apart(messages: seq<Message>) {
    forall i, j | 0 <= i < j < |messages| :: messages[i] != messages[j]
  }

  /** One message: its fields, and what is reported. */
  method JoinOne(host: Host, records: Option<seq<Nuclear>>, byId: map<Text, Nuclear>,
                 byHash: map<Text, seq<Nuclear>>, p: Primary, message: Message)
    returns (gaps: seq<Gap>, conflicts: seq<Conflict>)
    requires IdTable(host, byId, if records.Some? then records.value else [])
    requires records.Some? ==> HashTable(host, byHash, records.value)
    requires message.JoinState() == Joined(p.stableId, None, None)
    modifies message
    ensures Outcome(message.JoinState(), gaps, conflicts) == ByHash(host, records, p)
  {
    hide LastById, WithHash;
    gaps, conflicts := [], [];
    if p.stableId.Some? {
      var key := Key(host, p.stableId.value);
      assert (if key in byId then Some(byId[key]) else None) ==
             LastById(host, if records.Some? then records.value else [], key);
      if key !in byId {
        gaps := [MissingNuclear(p.stableId.value)];
        return;
      }
      var found := byId[key];
      if found.role != p.role || host.normalize(found.text) != host.normalize(p.text) {
        conflicts := [Conflict(p, found)];
        gaps := [SourceConflict(p.stableId.value)];
        return;
      }
      message.SetJoin(found, StableIdentifier);
      return;
    }
    if records.None? {
      message.joinConfidence := Some(NoConfidence);
      return;
    }
    var candidates := Filter(InReach(p), Bucket(byHash, TextHash(host, p.text)));
    assert candidates == HashCandidates(host, records.value, p);
    if |candidates| == 1 {
      message.SetJoin(candidates[0], TimestampTextHash);
    } else if |candidates| > 1 {
      message.joinMethod := Some(TimestampTextHash);
      message.joinConfidence := Some(Ambiguous);
      gaps := [JoinAmbiguous(p.session, p.ts)];
    } else {
      message.joinConfidence := Some(NoConfidence);
    }
  }

  method JoinTranscript(host: Host, records: Option<seq<Nuclear>>, primary: seq<Primary>, messages: seq<Message>)
    returns (gaps: seq<Gap>, conflicts: seq<Conflict>)
    requires |messages| == |primary| && Apart(messages)
    requires forall i | 0 <= i < |primary| :: messages[i].JoinState() == Joined(primary[i].stableId, None, None)
    modifies set m | m in messages
    ensures forall i | 0 <= i < |primary| :: messages[i].JoinState() == ByHash(host, records, primary[i]).joined
    ensures gaps == Gaps(host, records, primary) && conflicts == Conflicts(host, records, primary)
  {
    hide ByHash, IdTable, HashTable;
    gaps, conflicts := [], [];
    var nuclear := if records.Some? then records.value else [];
    var byId := IndexById(host, nuclear);
    var byHash := IndexByHash(host, nuclear);
    var i := 0;
    while i < |primary|
      invariant 0 <= i <= |primary|
      invariant forall k | 0 <= k < i :: messages[k].JoinState() == ByHash(host, records, primary[k]).joined
      invariant forall k | i <= k < |primary| :: messages[k].JoinState() == Joined(primary[k].stableId, None, None)
      invariant gaps == Gaps(host, records, primary[..i]) && conflicts == Conflicts(host, records, primary[..i])
    {
      assert primary[..i + 1][..i] == primary[..i];
      var newGaps, newConflicts := JoinOne(host, records, byId, byHash, primary[i], messages[i]);
      assert Outcome(messages[i].JoinState(), newGaps, newConflicts) == ByHash(host, records, primary[i]);
      gaps, conflicts := gaps + newGaps, conflicts + newConflicts;
      i := i + 1;
    }
    assert primary[..i] == primary;
  }

  // ---- Hashing against scanning ----

  predicate SameText(host: Host, a: Text, b: Text) {
    host.normalize(a) == host.normalize(b)
  }

  /** The hash of a record tells its text from the message's. */
  predicate ToldApart(host: Host, r: Nuclear, p: Primary) {
    TextHash(host, r.text) == TextHash(host, p.text) ==> SameText(host, r.text, p.text)
  }

  /** On any records the program finds the candidates it is meant to find exactly
      when the hashes of those in reach tell their texts from the message's. */
  lemma CandidatesAgreeIff(host: Host, records: seq<Nuclear>, p: Primary)
    ensures HashCandidates(host, records, p) == TextCandidates(host, records, p) <==>
            forall r <- records :: Reaches(p, r) ==> ToldApart(host, r, p)
  {
    hide Reaches, HashCandidates, TextCandidates;
    if forall r <- records :: Reaches(p, r) ==> ToldApart(host, r, p) {
      CandidatesAgree(host, records, p);
    } else {
      var r :| r in records && Reaches(p, r) && !ToldApart(host, r, p);
      WhatIsFound(host, records, p, r);
    }
  }

  lemma WhatIsFound(host: Host, records: seq<Nuclear>, p: Primary, r: Nuclear)
    requires r in records && Reaches(p, r)
    ensures r in HashCandidates(host, records, p) <==> TextHash(host, r.text) == TextHash(host, p.text)
    ensures r in TextCandidates(host, records, p) <==> SameText(host, r.text, p.text)
  {
    assert InReach(p)(r) && (Means(host, p)(r) <==> SameText(host, r.text, p.text));
    assert HasHash(host, TextHash(host, p.text))(r) <==> TextHash(host, r.text) == TextHash(host, p.text);
  }

  lemma {:induction false} CandidatesAgree(host: Host, records: seq<Nuclear>, p: Primary)
    requires forall r <- records :: Reaches(p, r) ==> ToldApart(host, r, p)
    ensures HashCandidates(host, records, p) == TextCandidates(host, records, p)
  {
    hide Reaches;
    if records != [] {
      CandidatesAgree(host, records[1..], p);
    }
  }

  /** The two joins agree on every input exactly when no two texts that differ
      after normalization have the same hash. */
  lemma HashingAgreesIff(host: Host)
    ensures (forall records, p :: ByHash(host, records, p) == ByText(host, records, p)) <==>
            (forall a, b :: TextHash(host, a) == TextHash(host, b) ==> SameText(host, a, b))
  {
    hide TextHash;
    if forall a, b :: TextHash(host, a) == TextHash(host, b) ==> SameText(host, a, b) {
      forall records: Option<seq<Nuclear>>, p ensures ByHash(host, records, p) == ByText(host, records, p) {
        if records.Some? {
          CandidatesAgree(host, records.value, p);
        }
      }
    } else {
      var a, b :| TextHash(host, a) == TextHash(host, b) && !SameText(host, a, b);
      var records, p := Collision(a), Probe(b);
      CollisionSplits(host, a, b);
      assert ByHash(host, records, p) != ByText(host, records, p);
    }
  }

  // ---- What the encoding before the digest adds ----

  /** The digest does not confuse two byte strings. */
  ghost predicate CollisionFree(host: Host) {
    forall x, y :: host.digest(x) == host.digest(y) ==> x == y
  }

  /** The texts are equal up to surrogates without their other half. */
  predicate EncodedAlike(host: Host, a: Text, b: Text) {
    Scrub(host.normalize(a)) == Scrub(host.normalize(b))
  }

  lemma SameHashIff(host: Host, a: Text, b: Text)
    requires CollisionFree(host)
    ensures TextHash(host, a) == TextHash(host, b) <==> EncodedAlike(host, a, b)
  {
    EncodedAlikeIff(host.normalize(a), host.normalize(b));
  }

  /** With a digest free of collisions the joins agree on every input exactly
      when no two texts normalize to texts that differ only in surrogates without
      their other half and replacement characters. */
  lemma EncodingAgreesIff(host: Host)
    requires CollisionFree(host)
    ensures (forall records, p :: ByHash(host, records, p) == ByText(host, records, p)) <==>
            (forall a, b :: EncodedAlike(host, a, b) ==> SameText(host, a, b))
  {
    hide ByHash, ByText, EncodedAlike, TextHash;
    HashingAgreesIff(host);
    forall a, b ensures TextHash(host, a) == TextHash(host, b) <==> EncodedAlike(host, a, b) {
      SameHashIff(host, a, b);
    }
  }

  /** So they agree on a message and records whose normalized texts hold no such
      surrogate. */
  lemma PairedTextsAgree(host: Host, records: seq<Nuclear>, p: Primary)
    requires CollisionFree(host)
    requires WellPaired(host.normalize(p.text)) && forall r <- records :: WellPaired(host.normalize(r.text))
    ensures ByHash(host, Some(records), p) == ByText(host, Some(records), p)
  {
    forall r | r in records ensures ToldApart(host, r, p) {
      PairedIsInjective(host.normalize(r.text), host.normalize(p.text));
    }
    CandidatesAgree(host, records, p);
  }

  /** Half of a pair, which normalization leaves as it is. */
  const LONE: Text := [0xD800]

  /** Whatever the digest, a record of a lone surrogate is joined with high
      confidence to a message of a replacement character, where no record has
      the message's text. */
  lemma LoneSurrogateIsMistaken(host: Host)
    requires host.normalize(LONE) == LONE && host.normalize([REPLACEMENT]) == [REPLACEMENT]
    ensures ByHash(host, Collision(LONE), Probe([REPLACEMENT])).joined.confidence == Some(High)
    ensures ByText(host, Collision(LONE), Probe([REPLACEMENT])).joined.confidence == Some(NoConfidence)
  {
    assert LONE != [REPLACEMENT] by {
      assert LONE[0] != [REPLACEMENT][0];
    }
    assert LONE[1..] == [] && [REPLACEMENT][1..] == [];
    assert Scrub(LONE) == Scrub([REPLACEMENT]);
    EncodedAlikeIff(LONE, [REPLACEMENT]);
    CollisionSplits(host, LONE, [REPLACEMENT]);
  }

  function Collision(a: Text): Option<seq<Nuclear>> {
    Some([Nuclear(NumberId(0), User, a, 0)])
  }

  function Probe(b: Text): Primary {
    Primary([], [], 0, User, b, None)
  }

  lemma CollisionSplits(host: Host, a: Text, b: Text)
    requires TextHash(host, a) == TextHash(host, b) && !SameText(host, a, b)
    ensures ByHash(host, Collision(a), Probe(b)).joined.confidence == Some(High)
    ensures ByText(host, Collision(a), Probe(b)).joined.confidence == Some(NoConfidence)
  {
    var r := Nuclear(NumberId(0), User, a, 0);
    FilterAll(HasHash(host, TextHash(host, b)), [r]);
    FilterAll(InReach(Probe(b)), [r]);
    FilterNone(Means(host, Probe(b)), [r]);
  }

  /** The positions of the records a message without a stable id could mean: of
      the same role and text, and at most five minutes apart. */
  predicate IsCandidate(host: Host, records: seq<Nuclear>, p: Primary, i: int) {
    && 0 <= i < |records| && records[i].role == p.role
    && host.normalize(records[i].text) == host.normalize(p.text)
    && p.ms - 300000 <= records[i].ms <= p.ms + 300000
  }

  ghost predicate OnlyCandidate(host: Host, records: seq<Nuclear>, p: Primary, i: int) {
    IsCandidate(host, records, p, i) && forall k :: IsCandidate(host, records, p, k) ==> k == i
  }

  ghost predicate SeveralCandidates(host: Host, records: seq<Nuclear>, p: Primary) {
    exists i, k :: i < k && IsCandidate(host, records, p, i) && IsCandidate(host, records, p, k)
  }

  lemma {:induction false} FilterByPosition<T>(keep: T -> bool, s: seq<T>)
    ensures |Filter(keep, s)| > 0 <==> exists i :: 0 <= i < |s| && keep(s[i])
    ensures |Filter(keep, s)| > 1 <==> exists i, k :: 0 <= i < k < |s| && keep(s[i]) && keep(s[k])
    ensures |Filter(keep, s)| == 1 ==> exists i :: 0 <= i < |s| && keep(s[i]) && s[i] == Filter(keep, s)[0]
  {
    if s != [] {
      FilterByPosition(keep, s[1..]);
      assert forall i | 0 <= i < |s[1..]| :: s[1..][i] == s[i + 1];
      assert forall i | 1 <= i < |s| :: s[i] == s[1..][i - 1];
    }
  }

  /** A message without a stable id is joined with high confidence exactly when
      one record could be meant, to that record; it is marked ambiguous, with a
      gap, exactly when several could. All that is asked is that the hashes of
      the records in reach tell their texts from the message's. */
  lemma ConfidenceIff(host: Host, records: seq<Nuclear>, p: Primary)
    requires p.stableId.None?
    requires forall r <- records :: r.role == p.role && p.ms - 300000 <= r.ms <= p.ms + 300000 ==> ToldApart(host, r, p)
    ensures var o := ByHash(host, Some(records), p);
            && (o.joined.confidence == Some(High) <==> exists i :: OnlyCandidate(host, records, p, i))
            && (forall i :: OnlyCandidate(host, records, p, i) ==> o.joined.id == Some(records[i].id))
            && (o.joined.confidence == Some(Ambiguous) <==> SeveralCandidates(host, records, p))
            && (o.gaps == [JoinAmbiguous(p.session, p.ts)] <==> SeveralCandidates(host, records, p))
            && o.conflicts == []
            && (o.joined.confidence == Some(High) ==> o.joined.how == Some(TimestampTextHash) && o.gaps == [])
            && (o.joined.confidence == Some(Ambiguous) ==>
                  o.joined == Joined(None, Some(TimestampTextHash), Some(Ambiguous)))
            && (o.joined.confidence !in {Some(High), Some(Ambiguous)} ==>
                  o.joined == Joined(None, None, Some(NoConfidence)) && o.gaps == [])
  {
    hide OnlyCandidate, SeveralCandidates, HashCandidates, ToldApart;
    CandidatesAgree(host, records, p);
    CandidateCount(host, records, p);
  }

  lemma CandidateIff(host: Host, records: seq<Nuclear>, p: Primary, i: int)
    ensures IsCandidate(host, records, p, i) <==> 0 <= i < |records| && Means(host, p)(records[i])
  {
    if 0 <= i < |records| {
      assert Means(host, p)(records[i]) <==>
             host.normalize(records[i].text) == host.normalize(p.text) && Reaches(p, records[i]);
    }
  }

  lemma CandidateCount(host: Host, records: seq<Nuclear>, p: Primary)
    ensures var found := TextCandidates(host, records, p);
            && (|found| > 1 <==> SeveralCandidates(host, records, p))
            && (|found| == 1 <==> exists i :: OnlyCandidate(host, records, p, i))
            && (forall i :: OnlyCandidate(host, records, p, i) ==> |found| == 1 && found[0] == records[i])
  {
    hide Means, IsCandidate;
    var keep := Means(host, p);
    FilterByPosition(keep, records);
    forall i ensures IsCandidate(host, records, p, i) <==> 0 <= i < |records| && keep(records[i]) {
      CandidateIff(host, records, p, i);
    }
    assert forall i | 0 <= i < |records| && keep(records[i]) :: IsCandidate(host, records, p, i);
    if |Filter(keep, records)| == 1 {
      assert forall i, k | 0 <= i < k < |records| :: !(keep(records[i]) && keep(records[k]));
      var i :| 0 <= i < |records| && keep(records[i]) && records[i] == Filter(keep, records)[0];
      assert OnlyCandidate(host, records, p, i);
    }
  }

  /** The record a stable id means is the last that carries it. */
  lemma {:induction false} LastByIdIff(host: Host, records: seq<Nuclear>, key: Text, r: Nuclear)
    ensures LastById(host, records, key) == Some(r) <==>
            exists i :: LastWithKey(host, records, key, i) && records[i] == r
    ensures LastById(host, records, key).None? <==> forall i | 0 <= i < |records| :: Key(host, records[i].id) != key
  {
    if records != [] {
      var n := |records| - 1;
      var init := records[..n];
      LastByIdIff(host, init, key, r);
      assert forall i | 0 <= i < n :: init[i] == records[i];
      if Key(host, records[n].id) == key {
        assert LastWithKey(host, records, key, n);
      } else {
        assert forall i :: LastWithKey(host, records, key, i) <==> LastWithKey(host, init, key, i);
      }
    }
  }

  predicate LastWithKey(host: Host, records: seq<Nuclear>, key: Text, i: int) {
    && 0 <= i < |records| && Key(host, records[i].id) == key
    && forall k | i < k < |records| :: Key(host, records[k].id) != key
  }

  predicate SameMessage(host: Host, r: Nuclear, p: Primary) {
    r.role == p.role && host.normalize(r.text) == host.normalize(p.text)
  }

  /** A message with a stable id is joined to the last record that carries it,
      if that has its role and text; it is a conflict if not, and a gap if there
      is no such record. Hashes play no part. */
  lemma StableIdIff(host: Host, records: seq<Nuclear>, p: Primary, r: Nuclear)
    requires p.stableId.Some?
    ensures var o := ByHash(host, Some(records), p);
            var key := Key(host, p.stableId.value);
            && ((exists i :: LastWithKey(host, records, key, i) && records[i] == r && SameMessage(host, r, p)) ==>
                  o.joined == Joined(Some(r.id), Some(StableIdentifier), Some(High)) && o.gaps == [])
            && (o.conflicts == [Conflict(p, r)] <==>
                  exists i :: LastWithKey(host, records, key, i) && records[i] == r && !SameMessage(host, r, p))
            && (o.gaps == [MissingNuclear(p.stableId.value)] <==>
                  forall i | 0 <= i < |records| :: Key(host, records[i].id) != key)
            && (o.joined.confidence == Some(High) <==>
                  exists i :: LastWithKey(host, records, key, i) && SameMessage(host, records[i], p))
            && (o.joined.confidence != Some(High) ==> o.joined == Joined(p.stableId, None, None))
            && (o.gaps == [SourceConflict(p.stableId.value)] <==> o.conflicts != [])
            && (o.joined.confidence == Some(High) ==> o.gaps == [] && o.conflicts == [])
  {
    hide LastById, LastWithKey;
    var key := Key(host, p.stableId.value);
    LastByIdIff(host, records, key, r);
    var found := LastById(host, records, key);
    if found.Some? {
      LastByIdIff(host, records, key, found.value);
    }
    forall i | LastWithKey(host, records, key, i)
      ensures 0 <= i < |records| && found == Some(records[i])
    {
      WithKeyIsFound(host, records, key, i);
    }
  }

  lemma WithKeyIsFound(host: Host, records: seq<Nuclear>, key: Text, i: int)
    requires LastWithKey(host, records, key, i)
    ensures 0 <= i < |records| && LastById(host, records, key) == Some(records[i])
  {
    hide LastById;
    LastByIdIff(host, records, key, records[i]);
  }
}
