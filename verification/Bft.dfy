/**
 Finality of a compression ratio by vote: a registered set of validators, the certificate that
 a quorum of them signs, the check of a certificate, and the count that issues one.
 */
module Bft {
  import opened Options
  import opened Bytes
  import opened Collections
  import opened Hashing

  /** A 32-byte verifying key. */
  type Key = Digest

  /** A ratio is carried as the 64 bits of its floating-point form. */
  datatype Vote = Vote(validator: seq<byte>, pipe: u16, ratio: u64, key: Key, signature: seq<byte>)

  datatype Cert = Cert(pipe: u16, ratio: u64, votes: seq<Vote>, quorum: nat)

  datatype Error =
    | EmptySet | RepeatedKey
    | BelowQuorum | WrongQuorum | PipeMismatch | UnsignedRatio | RatioMismatch
    | Outsider | DuplicateVoter
    | SignatureLength | InvalidKey | NotVerified
    | NoVotes | NoQuorum

  datatype Result<T> = Ok(value: T) | Err(error: Error)

  /** The signature scheme: which keys parse, and which signatures verify under them. */
  datatype Scheme = Scheme(validKey: Key -> bool, verifies: (Key, seq<byte>, seq<byte>) -> bool)

  // ---- Signed messages ----

  function Message(validator: seq<byte>, pipe: u16, ratio: u64): seq<byte>
  {
    Ascii("BDLM_BFT_VOTE_V2") + Le(|validator|, 4) + validator + Le(pipe, 2) + Le(ratio, 8)
  }

  /** One message is signed for one voter, one pipe and one ratio. */
  lemma MessageBinds(a: Vote, b: Vote)
    requires Message(a.validator, a.pipe, a.ratio) == Message(b.validator, b.pipe, b.ratio)
    ensures a.validator == b.validator && a.pipe == b.pipe && a.ratio == b.ratio
  {
    var m := Message(a.validator, a.pipe, a.ratio);
    MessageParts(a);
    MessageParts(b);
    FromLeLe(a.pipe, 2);
    FromLeLe(b.pipe, 2);
    FromLeLe(a.ratio, 8);
    FromLeLe(b.ratio, 8);
  }

  lemma MessageParts(a: Vote)
    ensures var m := Message(a.validator, a.pipe, a.ratio);
            var n := |m| - 10;
            && n >= 20 && m[20..n] == a.validator && m[n..n + 2] == Le(a.pipe, 2) && m[n + 2..] == Le(a.ratio, 8)
  {
    hide Le;
    var m := Message(a.validator, a.pipe, a.ratio);
    assert |Ascii("BDLM_BFT_VOTE_V2")| == 16;
    assert |m| == 30 + |a.validator|;
    assert m[20..|m| - 10] == a.validator;
  }

  /** The outcome of checking one vote's signature. */
  function SignatureFault(s: Scheme, v: Vote): Option<Error>
  {
    if |v.signature| != 64 then Some(SignatureLength)
    else if !s.validKey(v.key) then Some(InvalidKey)
    else if !s.verifies(v.key, Message(v.validator, v.pipe, v.ratio), v.signature) then Some(NotVerified)
    else None
  }

  /**
   A signature holds: 64 bytes that verify under a key that parses, over the tag, the length of
   the name, the name, the pipe and the ratio.
   */
  predicate Signed(s: Scheme, v: Vote)
  {
    && |v.signature| == 64 && s.validKey(v.key)
    && s.verifies(v.key, Ascii("BDLM_BFT_VOTE_V2") + Le(|v.validator|, 4) + v.validator + Le(v.pipe, 2) + Le(v.ratio, 8), v.signature)
  }

  /** What each outcome of the check says. */
  lemma FaultExactly(s: Scheme, v: Vote)
    ensures SignatureFault(s, v) == None <==> Signed(s, v)
    ensures SignatureFault(s, v) == Some(SignatureLength) <==> |v.signature| != 64
    ensures SignatureFault(s, v) == Some(InvalidKey) <==> |v.signature| == 64 && !s.validKey(v.key)
    ensures SignatureFault(s, v) == Some(NotVerified) <==> |v.signature| == 64 && s.validKey(v.key) && !Signed(s, v)
  {}

  /** The fault of the first vote whose signature does not hold. */
  function FirstFault(s: Scheme, votes: seq<Vote>): Option<Error>
  {
    if votes == [] then None
    else if SignatureFault(s, votes[0]).Some? then SignatureFault(s, votes[0])
    else FirstFault(s, votes[1..])
  }

  ghost predicate AllSigned(s: Scheme, votes: seq<Vote>)
  {
    forall i :: 0 <= i < |votes| ==> Signed(s, votes[i])
  }

  /** The vote at i is the first that does not hold, and the error says why. */
  ghost predicate Faulty(s: Scheme, votes: seq<Vote>, i: nat, e: Error)
  {
    && i < |votes| && AllSigned(s, votes[..i]) && !Signed(s, votes[i])
    && e == if |votes[i].signature| != 64 then SignatureLength else if !s.validKey(votes[i].key) then InvalidKey else NotVerified
  }

  lemma {:induction false} NoFaultMeansSigned(s: Scheme, votes: seq<Vote>)
    ensures FirstFault(s, votes) == None <==> AllSigned(s, votes)
    ensures FirstFault(s, votes).Some? ==> exists i: nat :: Faulty(s, votes, i, FirstFault(s, votes).value)
  {
    if votes != [] {
      FaultExactly(s, votes[0]);
      hide Signed, SignatureFault;
      var rest := votes[1..];
      NoFaultMeansSigned(s, rest);
      SignedCons(s, votes);
      if SignatureFault(s, votes[0]).Some? {
        assert Faulty(s, votes, 0, FirstFault(s, votes).value);
      } else if FirstFault(s, rest).Some? {
        var i: nat :| Faulty(s, rest, i, FirstFault(s, rest).value);
        assert votes[..i + 1][1..] == rest[..i];
        SignedCons(s, votes[..i + 1]);
        assert Faulty(s, votes, i + 1, FirstFault(s, votes).value);
      }
    }
  }

  lemma SignedCons(s: Scheme, votes: seq<Vote>)
    requires votes != []
    ensures AllSigned(s, votes) <==> Signed(s, votes[0]) && AllSigned(s, votes[1..])
  {
    hide Signed;
    assert forall i :: 0 < i < |votes| ==> votes[i] == votes[1..][i - 1];
    assert forall i :: 0 <= i < |votes| - 1 ==> votes[1..][i] == votes[i + 1];
  }

  // ---- The validators ----

  datatype Validators = Validators(keys: seq<Key>) {
    ghost predicate Valid()
    {
      keys != [] && Distinct(keys)
    }

    /** The faults that are tolerated, and the votes that are then enough. */
    function Faults(): nat
      requires Valid()
    {
      (|keys| - 1) / 3
    }

    function Quorum(): (q: nat)
      requires Valid()
      ensures 1 <= q <= |keys|
      ensures q == 2 * |keys| / 3 + 1
    {
      |keys| - (|keys| - 1) / 3
    }

    ghost function Members(): set<Key>
    {
      Elements(keys)
    }
  }

  /** Two quorums share more validators than may be at fault. */
  lemma QuorumsOverlap(vs: Validators, a: set<Key>, b: set<Key>)
    requires vs.Valid() && a <= vs.Members() && b <= vs.Members()
    requires |a| >= vs.Quorum() && |b| >= vs.Quorum()
    ensures |a * b| >= vs.Faults() + 1
  {
    DistinctBySize(vs.keys);
    SubsetSize(a + b, vs.Members());
  }

  /** The validators that are not at fault are a quorum. */
  lemma HonestReachQuorum(vs: Validators, honest: set<Key>)
    requires vs.Valid() && honest <= vs.Members() && |vs.Members() - honest| <= vs.Faults()
    ensures |honest| >= vs.Quorum()
  {
    DistinctBySize(vs.keys);
    assert vs.Members() - (vs.Members() - honest) == honest;
  }

  // ---- Certificates ----

  ghost function KeysOf(votes: seq<Vote>): (r: seq<Key>)
    ensures |r| == |votes|
  {
    seq<Key>(|votes|, i requires 0 <= i < |votes| => votes[i].key)
  }

  ghost function Voters(votes: seq<Vote>): set<Key>
  {
    Elements(KeysOf(votes))
  }

  ghost predicate AllMembers(vs: Validators, votes: seq<Vote>)
  {
    forall i :: 0 <= i < |votes| ==> votes[i].key in vs.keys
  }

  /** What a certificate has to be. */
  ghost predicate Accepted(c: Cert, vs: Validators, s: Scheme)
    requires vs.Valid()
  {
    && c.quorum == vs.Quorum() <= |c.votes|
    && AllMembers(vs, c.votes) && Distinct(KeysOf(c.votes))
    && forall i :: 0 <= i < |c.votes| ==>
         c.votes[i].pipe == c.pipe && c.votes[i].ratio == c.ratio && Signed(s, c.votes[i])
  }

  /** Two votes under one key that sign different ratios for one pipe: the evidence against a validator. */
  ghost predicate Conflict(s: Scheme, key: Key, pipe: u16, a: Vote, b: Vote)
  {
    && a.key == b.key == key && a.pipe == b.pipe == pipe && a.ratio != b.ratio
    && var m, n := Message(a.validator, a.pipe, a.ratio), Message(b.validator, b.pipe, b.ratio);
       m != n && s.validKey(key) && s.verifies(key, m, a.signature) && s.verifies(key, n, b.signature)
  }

  /** Among the votes that were cast, two of the key's conflict. */
  ghost predicate Equivocates(cast: set<Vote>, s: Scheme, key: Key, pipe: u16)
  {
    exists a, b :: a in cast && b in cast && Conflict(s, key, pipe, a, b)
  }

  lemma VotersAreMembers(vs: Validators, votes: seq<Vote>)
    requires AllMembers(vs, votes) && Distinct(KeysOf(votes))
    ensures Voters(votes) <= vs.Members() && |Voters(votes)| == |votes|
  {
    DistinctBySize(KeysOf(votes));
    forall k | k in Voters(votes) ensures k in vs.Members() {
      var i :| 0 <= i < |votes| && KeysOf(votes)[i] == k;
    }
  }

  lemma VoteOf(votes: seq<Vote>, k: Key) returns (v: Vote)
    requires k in Voters(votes)
    ensures v in votes && v.key == k
  {
    var i :| 0 <= i < |votes| && KeysOf(votes)[i] == k;
    v := votes[i];
  }

  /** The votes of one key in two certificates that disagree. */
  lemma VotesConflict(c: Cert, d: Cert, vs: Validators, s: Scheme, k: Key) returns (a: Vote, b: Vote)
    requires vs.Valid() && Accepted(c, vs, s) && Accepted(d, vs, s)
    requires c.pipe == d.pipe && c.ratio != d.ratio && k in Voters(c.votes) * Voters(d.votes)
    ensures a in c.votes && b in d.votes && Conflict(s, k, c.pipe, a, b)
  {
    a := VoteOf(c.votes, k);
    b := VoteOf(d.votes, k);
    assert Signed(s, a) && Signed(s, b);
    if Message(a.validator, a.pipe, a.ratio) == Message(b.validator, b.pipe, b.ratio) { MessageBinds(a, b); }
  }

  /**
   Two certificates that disagree convict more validators than may be at fault: each of them by
   a vote in the one and a vote in the other.
   */
  lemma DisagreementConvicts(c: Cert, d: Cert, vs: Validators, s: Scheme) returns (guilty: set<Key>)
    requires vs.Valid() && Accepted(c, vs, s) && Accepted(d, vs, s)
    requires c.pipe == d.pipe && c.ratio != d.ratio
    ensures guilty <= vs.Members() && |guilty| > vs.Faults()
    ensures forall k :: k in guilty ==> exists a, b :: a in c.votes && b in d.votes && Conflict(s, k, c.pipe, a, b)
  {
    hide Conflict, Accepted, Signed;
    guilty := Voters(c.votes) * Voters(d.votes);
    AcceptedVoters(c, vs, s);
    AcceptedVoters(d, vs, s);
    QuorumsOverlap(vs, Voters(c.votes), Voters(d.votes));
    forall k | k in guilty ensures exists a, b :: a in c.votes && b in d.votes && Conflict(s, k, c.pipe, a, b) {
      var a, b := VotesConflict(c, d, vs, s, k);
    }
  }

  lemma AcceptedVoters(c: Cert, vs: Validators, s: Scheme)
    requires vs.Valid() && Accepted(c, vs, s)
    ensures Voters(c.votes) <= vs.Members() && |Voters(c.votes)| >= vs.Quorum()
  {
    VotersAreMembers(vs, c.votes);
  }

  /**
   Agreement: whatever votes were cast, as long as at most f validators cast conflicting ones
   for a pipe, only one ratio is certified for it from those votes.
   */
  lemma Agreement(cast: set<Vote>, c: Cert, d: Cert, vs: Validators, s: Scheme, honest: set<Key>)
    requires vs.Valid() && Accepted(c, vs, s) && Accepted(d, vs, s) && c.pipe == d.pipe
    requires (forall v :: v in c.votes ==> v in cast) && (forall v :: v in d.votes ==> v in cast)
    requires honest <= vs.Members() && |vs.Members() - honest| <= vs.Faults()
    requires forall k :: k in honest ==> !Equivocates(cast, s, k, c.pipe)
    ensures c.ratio == d.ratio
  {
    hide Conflict, Accepted;
    if c.ratio != d.ratio {
      var guilty := DisagreementConvicts(c, d, vs, s);
      assert forall k :: k in guilty ==> Equivocates(cast, s, k, c.pipe);
      SubsetSize(guilty, vs.Members() - honest);
    }
  }

  // ---- Checking a certificate ----

  ghost predicate AllOnPipe(votes: seq<Vote>, pipe: u16)
  {
    forall i :: 0 <= i < |votes| ==> votes[i].pipe == pipe
  }

  ghost predicate AllOnRatio(votes: seq<Vote>, ratio: u64)
  {
    forall i :: 0 <= i < |votes| ==> votes[i].ratio == ratio
  }

  ghost predicate SomeOnRatio(votes: seq<Vote>, ratio: u64)
  {
    exists i :: 0 <= i < |votes| && votes[i].ratio == ratio
  }

  /** The verdict on a certificate, the first objection winning. */
  ghost function Verdict(c: Cert, vs: Validators, s: Scheme): Result<()>
    requires vs.Valid()
  {
    if |c.votes| < vs.Quorum() then Err(BelowQuorum)
    else if c.quorum != vs.Quorum() then Err(WrongQuorum)
    else if !AllOnPipe(c.votes, c.pipe) then Err(PipeMismatch)
    else if !SomeOnRatio(c.votes, c.ratio) then Err(UnsignedRatio)
    else if !AllOnRatio(c.votes, c.ratio) then Err(RatioMismatch)
    else if !AllMembers(vs, c.votes) then Err(Outsider)
    else if !Distinct(KeysOf(c.votes)) then Err(DuplicateVoter)
    else match FirstFault(s, c.votes)
      case Some(e) => Err(e)
      case None => Ok(())
  }

  lemma VerdictAccepts(c: Cert, vs: Validators, s: Scheme)
    requires vs.Valid()
    ensures Verdict(c, vs, s) == Ok(()) <==> Accepted(c, vs, s)
  {
    hide Signed, FirstFault;
    NoFaultMeansSigned(s, c.votes);
    if Accepted(c, vs, s) { assert c.votes[0].ratio == c.ratio; }
  }

  /** Which certificates pass, in terms of the votes alone. */
  lemma VerdictExactly(c: Cert, vs: Validators, s: Scheme)
    requires vs.Valid()
    ensures Verdict(c, vs, s) == Ok(()) <==>
            && c.quorum == 2 * |vs.keys| / 3 + 1 <= |c.votes|
            && (forall i, j :: 0 <= i < j < |c.votes| ==> c.votes[i].key != c.votes[j].key)
            && forall i :: 0 <= i < |c.votes| ==>
                 var v := c.votes[i];
                 && v.key in vs.keys && v.pipe == c.pipe && v.ratio == c.ratio && |v.signature| == 64 && s.validKey(v.key)
                 && s.verifies(v.key, Ascii("BDLM_BFT_VOTE_V2") + Le(|v.validator|, 4) + v.validator + Le(c.pipe, 2) + Le(c.ratio, 8),
                               v.signature)
  {
    hide Verdict, Le;
    VerdictAccepts(c, vs, s);
    KeysAreDistinct(c.votes);
  }

  lemma KeysAreDistinct(votes: seq<Vote>)
    ensures Distinct(KeysOf(votes)) <==> forall i, j :: 0 <= i < j < |votes| ==> votes[i].key != votes[j].key
  {
    assert forall i :: 0 <= i < |votes| ==> KeysOf(votes)[i] == votes[i].key;
  }

  /** What each objection says; it is made only where no earlier one can be. */
  lemma ObjectionExactly(c: Cert, vs: Validators, s: Scheme, e: Error)
    requires vs.Valid() && Verdict(c, vs, s) == Err(e)
    ensures e == BelowQuorum <==> |c.votes| < vs.Quorum()
    ensures e == WrongQuorum <==> |c.votes| >= vs.Quorum() != c.quorum
    ensures e == PipeMismatch <==> |c.votes| >= vs.Quorum() == c.quorum && exists v :: v in c.votes && v.pipe != c.pipe
    ensures e == UnsignedRatio ==> forall v :: v in c.votes ==> v.pipe == c.pipe && v.ratio != c.ratio
    ensures e == RatioMismatch ==> (exists v :: v in c.votes && v.ratio == c.ratio) && exists v :: v in c.votes && v.ratio != c.ratio
    ensures e == Outsider ==> exists v :: v in c.votes && v.key !in vs.keys
    ensures e == DuplicateVoter ==> (forall v :: v in c.votes ==> v.key in vs.keys) && exists i, j :: 0 <= i < j < |c.votes| && c.votes[i].key == c.votes[j].key
  {
    hide FirstFault;
    KeysAreDistinct(c.votes);
    if FirstFault(s, c.votes).Some? { FaultIsOfSignature(s, c.votes); }
  }

  lemma SignatureObjection(c: Cert, vs: Validators, s: Scheme, e: Error)
    requires vs.Valid() && Verdict(c, vs, s) == Err(e) && e in {SignatureLength, InvalidKey, NotVerified}
    ensures AllMembers(vs, c.votes) && Distinct(KeysOf(c.votes)) && exists i: nat :: Faulty(s, c.votes, i, e)
  {
    hide FirstFault, Faulty;
    NoFaultMeansSigned(s, c.votes);
  }

  lemma FaultIsOfSignature(s: Scheme, votes: seq<Vote>)
    requires FirstFault(s, votes).Some?
    ensures FirstFault(s, votes).value in {SignatureLength, InvalidKey, NotVerified}
  {
    hide FirstFault, Signed;
    NoFaultMeansSigned(s, votes);
  }

  method CollectKeys(votes: seq<Vote>) returns (keys: seq<Key>)
    ensures keys == KeysOf(votes)
  {
    keys := [];
    for i := 0 to |votes|
      invariant keys == KeysOf(votes)[..i]
    {
      keys := keys + [votes[i].key];
    }
  }

  method HasRepeat(keys: seq<Key>) returns (b: bool)
    ensures b <==> !Distinct(keys)
  {
    b := false;
    for i := 0 to |keys|
      invariant b <==> !Distinct(keys[..i])
    {
      DistinctPrefix(keys, i);
      b := b || keys[i] in keys[..i];
    }
    assert keys[..|keys|] == keys;
  }

  lemma DistinctPrefix(keys: seq<Key>, i: nat)
    requires i < |keys|
    ensures Distinct(keys[..i + 1]) <==> Distinct(keys[..i]) && keys[i] !in keys[..i]
  {
    var a, b := keys[..i], keys[..i + 1];
    assert forall x :: 0 <= x < i ==> a[x] == b[x];
  }

  method NewValidators(keys: seq<Key>) returns (r: Result<Validators>)
    ensures r.Ok? <==> Validators(keys).Valid()
    ensures r.Ok? ==> r.value == Validators(keys)
    ensures r.Err? ==> r.error == if keys == [] then EmptySet else RepeatedKey
  {
    if keys == [] { return Err(EmptySet); }
    var repeat := HasRepeat(keys);
    r := if repeat then Err(RepeatedKey) else Ok(Validators(keys));
  }

  method HasOutsider(vs: Validators, votes: seq<Vote>) returns (b: bool)
    ensures b <==> !AllMembers(vs, votes)
  {
    b := false;
    for i := 0 to |votes|
      invariant b <==> exists x :: 0 <= x < i && votes[x].key !in vs.keys
    {
      if votes[i].key !in vs.keys { b := true; }
    }
  }

  method CheckSignatures(s: Scheme, votes: seq<Vote>) returns (r: Option<Error>)
    ensures r == FirstFault(s, votes)
  {
    for i := 0 to |votes|
      invariant FirstFault(s, votes) == FirstFault(s, votes[i..])
    {
      assert votes[i..][1..] == votes[i + 1..];
      var fault := SignatureFault(s, votes[i]);
      if fault.Some? { return fault; }
    }
    r := None;
  }

  method Census(c: Cert) returns (samePipe: bool, someRatio: bool, allRatio: bool)
    ensures samePipe <==> AllOnPipe(c.votes, c.pipe)
    ensures someRatio <==> SomeOnRatio(c.votes, c.ratio)
    ensures allRatio <==> AllOnRatio(c.votes, c.ratio)
  {
    samePipe, someRatio, allRatio := true, false, true;
    for i := 0 to |c.votes|
      invariant samePipe <==> forall x :: 0 <= x < i ==> c.votes[x].pipe == c.pipe
      invariant someRatio <==> exists x :: 0 <= x < i && c.votes[x].ratio == c.ratio
      invariant allRatio <==> forall x :: 0 <= x < i ==> c.votes[x].ratio == c.ratio
    {
      samePipe := samePipe && c.votes[i].pipe == c.pipe;
      someRatio := someRatio || c.votes[i].ratio == c.ratio;
      allRatio := allRatio && c.votes[i].ratio == c.ratio;
    }
  }

  method Verify(c: Cert, vs: Validators, s: Scheme) returns (r: Result<()>)
    requires vs.Valid()
    ensures r == Verdict(c, vs, s)
    ensures r.Ok? <==> Accepted(c, vs, s)
  {
    VerdictAccepts(c, vs, s);
    if |c.votes| < vs.Quorum() { return Err(BelowQuorum); }
    if c.quorum != vs.Quorum() { return Err(WrongQuorum); }
    var samePipe, someRatio, allRatio := Census(c);
    if !samePipe { return Err(PipeMismatch); }
    if !someRatio { return Err(UnsignedRatio); }
    if !allRatio { return Err(RatioMismatch); }
    var outsider := HasOutsider(vs, c.votes);
    if outsider { return Err(Outsider); }
    var keys := CollectKeys(c.votes);
    var repeat := HasRepeat(keys);
    if repeat { return Err(DuplicateVoter); }
    var fault := CheckSignatures(s, c.votes);
    r := match fault case Some(e) => Err(e) case None => Ok(());
  }

  // ---- Counting ----

  /** The votes for one ratio of one pipe, in the order they came. */
  ghost function Ballots(votes: seq<Vote>, pipe: u16, ratio: u64): seq<Vote>
  {
    if votes == [] then []
    else
      var last := votes[|votes| - 1];
      Ballots(votes[..|votes| - 1], pipe, ratio) + if last.pipe == pipe && last.ratio == ratio then [last] else []
  }

  datatype Group = Group(pipe: u16, ratio: u64, votes: seq<Vote>)

  predicate Before(p: u16, r: u64, p': u16, r': u64)
  {
    p < p' || (p == p' && r < r')
  }

  ghost predicate Ascending(gs: seq<Group>)
  {
    forall i, j :: 0 <= i < j < |gs| ==> Before(gs[i].pipe, gs[i].ratio, gs[j].pipe, gs[j].ratio)
  }

  ghost predicate IsGroup(g: Group, votes: seq<Vote>)
  {
    g.votes != [] && g.votes == Ballots(votes, g.pipe, g.ratio)
  }

  /** The groups of the votes, each once, in ascending order of pipe and ratio. */
  ghost predicate Tally(gs: seq<Group>, votes: seq<Vote>)
  {
    && Ascending(gs)
    && (forall i :: 0 <= i < |gs| ==> IsGroup(gs[i], votes))
    && (forall p: u16, r: u64 :: Ballots(votes, p, r) != [] ==> HasGroup(gs, p, r))
  }

  ghost predicate HasGroup(gs: seq<Group>, p: u16, r: u64)
  {
    exists i :: 0 <= i < |gs| && gs[i].pipe == p && gs[i].ratio == r
  }

  lemma BallotsExtend(votes: seq<Vote>, v: Vote, p: u16, r: u64)
    ensures Ballots(votes + [v], p, r) == Ballots(votes, p, r) + if v.pipe == p && v.ratio == r then [v] else []
  {
    assert (votes + [v])[..|votes|] == votes;
  }

  method AddVote(gs: seq<Group>, v: Vote, ghost votes: seq<Vote>) returns (r: seq<Group>)
    requires Tally(gs, votes)
    ensures Tally(r, votes + [v])
  {
    var k := 0;
    while k < |gs| && Before(gs[k].pipe, gs[k].ratio, v.pipe, v.ratio)
      invariant k <= |gs|
      invariant forall i :: 0 <= i < k ==> Before(gs[i].pipe, gs[i].ratio, v.pipe, v.ratio)
    {
      k := k + 1;
    }
    if k < |gs| && gs[k].pipe == v.pipe && gs[k].ratio == v.ratio {
      r := gs[k := gs[k].(votes := gs[k].votes + [v])];
      TallyPushed(gs, v, votes, k);
    } else {
      r := gs[..k] + [Group(v.pipe, v.ratio, [v])] + gs[k..];
      assert PlaceOf(gs, v, k);
      TallyInserted(gs, v, votes, k);
    }
  }

  lemma GroupKept(g: Group, votes: seq<Vote>, v: Vote)
    requires IsGroup(g, votes) && !(g.pipe == v.pipe && g.ratio == v.ratio)
    ensures IsGroup(g, votes + [v])
  {
    BallotsExtend(votes, v, g.pipe, g.ratio);
  }

  lemma TallyPushed(gs: seq<Group>, v: Vote, votes: seq<Vote>, k: nat)
    requires Tally(gs, votes) && k < |gs| && gs[k].pipe == v.pipe && gs[k].ratio == v.ratio
    ensures Tally(gs[k := gs[k].(votes := gs[k].votes + [v])], votes + [v])
  {
    hide Ballots;
    var r := gs[k := gs[k].(votes := gs[k].votes + [v])];
    forall p: u16, q: u64
      ensures Ballots(votes + [v], p, q) != [] ==> HasGroup(r, p, q)
    {
      BallotsExtend(votes, v, p, q);
      if HasGroup(gs, p, q) {
        var i :| 0 <= i < |gs| && gs[i].pipe == p && gs[i].ratio == q;
        assert r[i].pipe == p && r[i].ratio == q;
      }
    }
    forall i | 0 <= i < |r|
      ensures IsGroup(r[i], votes + [v])
    {
      BallotsExtend(votes, v, r[i].pipe, r[i].ratio);
    }
  }

  /** The groups with one for the vote put in its place. */
  ghost function Inserted(gs: seq<Group>, v: Vote, k: nat): seq<Group>
    requires k <= |gs|
  {
    gs[..k] + [Group(v.pipe, v.ratio, [v])] + gs[k..]
  }

  ghost predicate PlaceOf(gs: seq<Group>, v: Vote, k: nat)
  {
    && k <= |gs|
    && (forall i :: 0 <= i < k ==> Before(gs[i].pipe, gs[i].ratio, v.pipe, v.ratio))
    && (forall i :: k <= i < |gs| ==> Before(v.pipe, v.ratio, gs[i].pipe, gs[i].ratio))
  }

  lemma InsertedAscends(gs: seq<Group>, v: Vote, k: nat)
    requires Ascending(gs) && PlaceOf(gs, v, k)
    ensures Ascending(Inserted(gs, v, k))
  {
    var r := Inserted(gs, v, k);
    assert forall i :: 0 <= i < |r| ==> r[i] == if i < k then gs[i] else if i == k then Group(v.pipe, v.ratio, [v]) else gs[i - 1];
  }

  lemma InsertedCovers(gs: seq<Group>, v: Vote, k: nat, p: u16, q: u64)
    requires k <= |gs|
    ensures HasGroup(Inserted(gs, v, k), p, q) <==> HasGroup(gs, p, q) || (v.pipe == p && v.ratio == q)
  {
    var r := Inserted(gs, v, k);
    assert r[k] == Group(v.pipe, v.ratio, [v]);
    assert forall i :: 0 <= i < |gs| ==> gs[i] == r[if i < k then i else i + 1];
  }

  lemma TallyInserted(gs: seq<Group>, v: Vote, votes: seq<Vote>, k: nat)
    requires Tally(gs, votes) && PlaceOf(gs, v, k)
    ensures Tally(Inserted(gs, v, k), votes + [v])
  {
    assert !HasGroup(gs, v.pipe, v.ratio);
    InsertedAscends(gs, v, k);
    var r := Inserted(gs, v, k);
    BallotsExtend(votes, v, v.pipe, v.ratio);
    forall i | 0 <= i < |r| ensures IsGroup(r[i], votes + [v]) {
      if i == k {
      } else {
        GroupKept(gs[if i < k then i else i - 1], votes, v);
      }
    }
    forall p: u16, q: u64
      ensures Ballots(votes + [v], p, q) != [] ==> HasGroup(r, p, q)
    {
      hide Ballots, HasGroup, Inserted;
      BallotsExtend(votes, v, p, q);
      InsertedCovers(gs, v, k, p, q);
    }
  }

  lemma {:induction false} BallotsAreVotes(votes: seq<Vote>, p: u16, q: u64)
    ensures forall v :: v in Ballots(votes, p, q) <==> v in votes && v.pipe == p && v.ratio == q
  {
    if votes != [] {
      var rest := votes[..|votes| - 1];
      BallotsAreVotes(rest, p, q);
      assert votes == rest + [votes[|votes| - 1]];
    }
  }

  lemma {:induction false} BallotsDistinct(votes: seq<Vote>, p: u16, q: u64)
    requires Distinct(KeysOf(votes))
    ensures Distinct(KeysOf(Ballots(votes, p, q)))
  {
    if votes != [] {
      var rest, last := votes[..|votes| - 1], votes[|votes| - 1];
      assert forall i :: 0 <= i < |rest| ==> KeysOf(rest)[i] == KeysOf(votes)[i];
      BallotsDistinct(rest, p, q);
      BallotsAreVotes(rest, p, q);
      var b := Ballots(rest, p, q);
      forall i | 0 <= i < |b| ensures b[i].key != last.key {
        var j :| 0 <= j < |rest| && rest[j] == b[i];
        assert KeysOf(votes)[j] == b[i].key && KeysOf(votes)[|rest|] == last.key;
      }
      var all := Ballots(votes, p, q);
      assert forall i :: 0 <= i < |b| ==> KeysOf(all)[i] == KeysOf(b)[i] == b[i].key;
    }
  }

  /** Votes that may be counted. */
  ghost predicate WellCast(votes: seq<Vote>, vs: Validators, s: Scheme)
  {
    AllMembers(vs, votes) && Distinct(KeysOf(votes)) && AllSigned(s, votes)
  }

  ghost predicate Carries(votes: seq<Vote>, vs: Validators, p: u16, q: u64)
    requires vs.Valid()
  {
    |Ballots(votes, p, q)| >= vs.Quorum()
  }

  /** The certificate of a ratio that carries: all the votes for it, and no others. */
  ghost function CertOf(votes: seq<Vote>, vs: Validators, p: u16, q: u64): Cert
    requires vs.Valid()
  {
    Cert(p, q, Ballots(votes, p, q), vs.Quorum())
  }

  lemma CertAccepted(votes: seq<Vote>, vs: Validators, s: Scheme, p: u16, q: u64)
    requires vs.Valid() && WellCast(votes, vs, s) && Carries(votes, vs, p, q)
    ensures Accepted(CertOf(votes, vs, p, q), vs, s)
  {
    hide Signed;
    BallotsAreVotes(votes, p, q);
    BallotsDistinct(votes, p, q);
    var b := Ballots(votes, p, q);
    forall i | 0 <= i < |b| ensures b[i].key in vs.keys && b[i].pipe == p && b[i].ratio == q && Signed(s, b[i]) {
      assert b[i] in b;
      var j :| 0 <= j < |votes| && votes[j] == b[i];
    }
  }

  /** Among votes that may be counted, at most one ratio of one pipe carries. */
  lemma OneCarries(votes: seq<Vote>, vs: Validators, s: Scheme, p: u16, q: u64, p': u16, q': u64)
    requires vs.Valid() && WellCast(votes, vs, s)
    requires Carries(votes, vs, p, q) && Carries(votes, vs, p', q')
    ensures p == p' && q == q'
  {
    hide Ballots;
    var a, b := Ballots(votes, p, q), Ballots(votes, p', q');
    CertAccepted(votes, vs, s, p, q);
    CertAccepted(votes, vs, s, p', q');
    VotersAreMembers(vs, a);
    VotersAreMembers(vs, b);
    QuorumsOverlap(vs, Voters(a), Voters(b));
    var k :| k in Voters(a) * Voters(b);
    var v := VoteOf(a, k);
    var w := VoteOf(b, k);
    BallotsAreVotes(votes, p, q);
    BallotsAreVotes(votes, p', q');
    SameKeySameVote(votes, v, w);
  }

  lemma SameKeySameVote(votes: seq<Vote>, v: Vote, w: Vote)
    requires Distinct(KeysOf(votes)) && v in votes && w in votes && v.key == w.key
    ensures v == w
  {
    var i :| 0 <= i < |votes| && votes[i] == v;
    var j :| 0 <= j < |votes| && votes[j] == w;
    assert KeysOf(votes)[i] == KeysOf(votes)[j];
  }

  /** The outcome of a count. */
  ghost predicate Finalizes(votes: seq<Vote>, vs: Validators, s: Scheme, r: Result<Cert>)
    requires vs.Valid()
  {
    if votes == [] then r == Err(NoVotes)
    else if !AllMembers(vs, votes) then r == Err(Outsider)
    else if !Distinct(KeysOf(votes)) then r == Err(DuplicateVoter)
    else match FirstFault(s, votes)
      case Some(e) => r == Err(e)
      case None =>
        if exists p: u16, q: u64 :: Carries(votes, vs, p, q) then
          && r.Ok? && r.value == CertOf(votes, vs, r.value.pipe, r.value.ratio)
          && Carries(votes, vs, r.value.pipe, r.value.ratio)
        else r == Err(NoQuorum)
  }

  method CountVotes(votes: seq<Vote>) returns (gs: seq<Group>)
    ensures Tally(gs, votes)
  {
    gs := [];
    for i := 0 to |votes|
      invariant Tally(gs, votes[..i])
    {
      gs := AddVote(gs, votes[i], votes[..i]);
      assert votes[..i + 1] == votes[..i] + [votes[i]];
    }
    assert votes[..|votes|] == votes;
  }

  /** The last of the largest groups. */
  method Largest(gs: seq<Group>) returns (best: nat)
    requires gs != []
    ensures best < |gs|
    ensures forall i :: 0 <= i < |gs| ==> |gs[i].votes| <= |gs[best].votes|
    ensures forall i :: best < i < |gs| ==> |gs[i].votes| < |gs[best].votes|
  {
    best := 0;
    for k := 1 to |gs|
      invariant best < k
      invariant forall i :: 0 <= i < k ==> |gs[i].votes| <= |gs[best].votes|
      invariant forall i :: best < i < k ==> |gs[i].votes| < |gs[best].votes|
    {
      if |gs[k].votes| >= |gs[best].votes| { best := k; }
    }
  }

  lemma LargestDecides(gs: seq<Group>, votes: seq<Vote>, vs: Validators, best: nat)
    requires vs.Valid() && Tally(gs, votes) && best < |gs|
    requires forall i :: 0 <= i < |gs| ==> |gs[i].votes| <= |gs[best].votes|
    ensures (exists p: u16, q: u64 :: Carries(votes, vs, p, q)) <==> |gs[best].votes| >= vs.Quorum()
    ensures Carries(votes, vs, gs[best].pipe, gs[best].ratio) <==> |gs[best].votes| >= vs.Quorum()
    ensures gs[best].votes == Ballots(votes, gs[best].pipe, gs[best].ratio) && gs[best].votes != []
    ensures gs[best].votes[0].ratio == gs[best].ratio
  {
    assert IsGroup(gs[best], votes);
    hide Ballots;
    BallotsAreVotes(votes, gs[best].pipe, gs[best].ratio);
    assert gs[best].votes[0] in gs[best].votes;
    assert Carries(votes, vs, gs[best].pipe, gs[best].ratio) <==> |gs[best].votes| >= vs.Quorum();
    if p: u16, q: u64 :| Carries(votes, vs, p, q) {
      assert HasGroup(gs, p, q);
      var i :| 0 <= i < |gs| && gs[i].pipe == p && gs[i].ratio == q;
      assert IsGroup(gs[i], votes);
    }
  }

  method FinalizeRatio(votes: seq<Vote>, vs: Validators, s: Scheme) returns (r: Result<Cert>)
    requires vs.Valid()
    ensures Finalizes(votes, vs, s, r)
  {
    if votes == [] { return Err(NoVotes); }
    var outsider := HasOutsider(vs, votes);
    if outsider { return Err(Outsider); }
    var keys := CollectKeys(votes);
    var repeat := HasRepeat(keys);
    if repeat { return Err(DuplicateVoter); }
    var fault := CheckSignatures(s, votes);
    NoFaultMeansSigned(s, votes);
    if fault.Some? { return Err(fault.value); }
    r := Elect(votes, vs, s);
  }

  method Elect(votes: seq<Vote>, vs: Validators, s: Scheme) returns (r: Result<Cert>)
    requires vs.Valid() && votes != [] && WellCast(votes, vs, s)
    ensures Finalizes(votes, vs, s, r)
  {
    hide Ballots, FirstFault, Distinct, Accepted, AllSigned;
    NoFaultMeansSigned(s, votes);
    var gs := CountVotes(votes);
    SomeGroup(gs, votes);
    var best := Largest(gs);
    LargestDecides(gs, votes, vs, best);
    var g := gs[best];
    if |g.votes| < vs.Quorum() { return Err(NoQuorum); }
    CertAccepted(votes, vs, s, g.pipe, g.ratio);
    var cert := Cert(g.pipe, g.votes[0].ratio, g.votes, vs.Quorum());
    var checked := Verify(cert, vs, s);
    r := match checked case Ok(_) => Ok(cert) case Err(e) => Err(e);
  }

  lemma SomeGroup(gs: seq<Group>, votes: seq<Vote>)
    requires Tally(gs, votes) && votes != []
    ensures gs != []
  {
    var v := votes[|votes| - 1];
    assert v in Ballots(votes, v.pipe, v.ratio);
    assert HasGroup(gs, v.pipe, v.ratio);
  }

  /** A certificate is issued exactly when the votes may be counted and a ratio carries; it is then accepted. */
  lemma IssuedExactly(votes: seq<Vote>, vs: Validators, s: Scheme, r: Result<Cert>)
    requires vs.Valid() && Finalizes(votes, vs, s, r)
    ensures r.Ok? <==> WellCast(votes, vs, s) && exists p: u16, q: u64 :: Carries(votes, vs, p, q)
    ensures r.Ok? ==> Accepted(r.value, vs, s)
    ensures r.Ok? ==> forall p: u16, q: u64 :: Carries(votes, vs, p, q) <==> p == r.value.pipe && q == r.value.ratio
  {
    hide FirstFault, Distinct, Accepted, AllSigned;
    NoFaultMeansSigned(s, votes);
    if r.Ok? {
      var c := r.value;
      CertAccepted(votes, vs, s, c.pipe, c.ratio);
      forall p: u16, q: u64 | Carries(votes, vs, p, q) ensures p == c.pipe && q == c.ratio {
        OneCarries(votes, vs, s, p, q, c.pipe, c.ratio);
      }
    }
  }

  /** Liveness: when all but f validators vote for one ratio, it is certified, whatever the others vote. */
  lemma HonestDecide(votes: seq<Vote>, vs: Validators, s: Scheme, r: Result<Cert>, honest: set<Key>, p: u16, q: u64)
    requires vs.Valid() && Finalizes(votes, vs, s, r) && WellCast(votes, vs, s)
    requires honest <= vs.Members() && |vs.Members() - honest| <= vs.Faults()
    requires honest <= Voters(Ballots(votes, p, q))
    ensures r == Ok(CertOf(votes, vs, p, q))
  {
    hide Finalizes, FirstFault, Ballots;
    BallotsDistinct(votes, p, q);
    HonestReachQuorum(vs, honest);
    DistinctBySize(KeysOf(Ballots(votes, p, q)));
    SubsetSize(honest, Voters(Ballots(votes, p, q)));
    assert Carries(votes, vs, p, q);
    IssuedExactly(votes, vs, s, r);
    IssuedIsCertOf(votes, vs, s, r);
  }

  /** What each refusal of a count says. */
  lemma RefusalExactly(votes: seq<Vote>, vs: Validators, s: Scheme, e: Error)
    requires vs.Valid() && Finalizes(votes, vs, s, Err(e))
    ensures e == NoVotes <==> votes == []
    ensures e == Outsider <==> exists v :: v in votes && v.key !in vs.keys
    ensures e == DuplicateVoter <==>
            (forall v :: v in votes ==> v.key in vs.keys) && exists i, j :: 0 <= i < j < |votes| && votes[i].key == votes[j].key
    ensures e == NoQuorum ==> WellCast(votes, vs, s) && forall p: u16, q: u64 :: |Ballots(votes, p, q)| < 2 * |vs.keys| / 3 + 1
  {
    hide FirstFault, AllSigned, Ballots;
    KeysAreDistinct(votes);
    NoFaultMeansSigned(s, votes);
    if FirstFault(s, votes).Some? { FaultIsOfSignature(s, votes); }
    if e == NoQuorum {
      forall p: u16, q: u64 ensures |Ballots(votes, p, q)| < 2 * |vs.keys| / 3 + 1 {
        assert !Carries(votes, vs, p, q);
      }
    }
  }

  /** What is issued: every vote for the pipe and the ratio, in the order they came, each by another member and signed. */
  lemma IssuedIsSigned(votes: seq<Vote>, vs: Validators, s: Scheme, r: Result<Cert>) returns (at: seq<nat>)
    requires vs.Valid() && Finalizes(votes, vs, s, r) && r.Ok?
    ensures |at| == |r.value.votes| >= r.value.quorum == 2 * |vs.keys| / 3 + 1
    ensures forall i, j :: 0 <= i < j < |at| ==> at[i] < at[j]
    ensures forall k: nat :: k in at <==> k < |votes| && votes[k].pipe == r.value.pipe && votes[k].ratio == r.value.ratio
    ensures forall i :: 0 <= i < |at| ==>
              var v := r.value.votes[i];
              && at[i] < |votes| && v == votes[at[i]] && v.key in vs.keys && |v.signature| == 64 && s.validKey(v.key)
              && s.verifies(v.key, Ascii("BDLM_BFT_VOTE_V2") + Le(|v.validator|, 4) + v.validator + Le(v.pipe, 2) + Le(v.ratio, 8),
                            v.signature)
  {
    hide Ballots, Le, FirstFault, Finalizes;
    IssuedExactly(votes, vs, s, r);
    IssuedIsCertOf(votes, vs, s, r);
    at := BallotsInOrder(votes, r.value.pipe, r.value.ratio);
    forall i | 0 <= i < |at| ensures Signed(s, votes[at[i]]) && votes[at[i]].key in vs.keys {
      assert at[i] in at;
    }
  }

  lemma {:induction false} BallotsInOrder(votes: seq<Vote>, p: u16, q: u64) returns (at: seq<nat>)
    ensures |at| == |Ballots(votes, p, q)|
    ensures forall i, j :: 0 <= i < j < |at| ==> at[i] < at[j]
    ensures forall k: nat :: k in at <==> k < |votes| && votes[k].pipe == p && votes[k].ratio == q
    ensures forall i :: 0 <= i < |at| ==> at[i] < |votes| && Ballots(votes, p, q)[i] == votes[at[i]]
  {
    at := [];
    if votes != [] {
      var n := |votes| - 1;
      var rest := votes[..n];
      assert votes == rest + [votes[n]];
      BallotsExtend(rest, votes[n], p, q);
      hide Ballots;
      at := BallotsInOrder(rest, p, q);
      if votes[n].pipe == p && votes[n].ratio == q {
        OneMoreAt(at, n);
        at := at + [n];
      }
    }
  }

  lemma OneMoreAt(at: seq<nat>, n: nat)
    requires (forall i, j :: 0 <= i < j < |at| ==> at[i] < at[j]) && forall i :: 0 <= i < |at| ==> at[i] < n
    ensures forall i, j :: 0 <= i < j <= |at| ==> (at + [n])[i] < (at + [n])[j]
    ensures forall k: nat :: k in at + [n] <==> k in at || k == n
  {}

  lemma IssuedIsCertOf(votes: seq<Vote>, vs: Validators, s: Scheme, r: Result<Cert>)
    requires vs.Valid() && Finalizes(votes, vs, s, r) && r.Ok?
    ensures r.value == CertOf(votes, vs, r.value.pipe, r.value.ratio)
  {}

  // ---- The order of the votes ----

  lemma {:induction false} BallotsCount(votes: seq<Vote>, p: u16, q: u64, v: Vote)
    ensures multiset(Ballots(votes, p, q))[v] == if v.pipe == p && v.ratio == q then multiset(votes)[v] else 0
  {
    if votes != [] {
      var rest, last := votes[..|votes| - 1], votes[|votes| - 1];
      BallotsCount(rest, p, q, v);
      assert votes == rest + [last];
      BallotsExtend(rest, last, p, q);
      hide Ballots;
      assert multiset(votes) == multiset(rest) + multiset{last};
      assert multiset(Ballots(votes, p, q))[v] == if v.pipe == p && v.ratio == q then multiset(votes)[v] else 0;
    }
  }

  /** Two orders of the same votes. */
  ghost predicate Reordered(a: seq<Vote>, b: seq<Vote>)
  {
    multiset(a) == multiset(b)
  }

  lemma ReorderedIn(a: seq<Vote>, b: seq<Vote>, v: Vote)
    requires Reordered(a, b)
    ensures v in a <==> v in b
  {
    assert v in a <==> v in multiset(a);
    assert v in b <==> v in multiset(b);
  }

  lemma ReorderedBallots(a: seq<Vote>, b: seq<Vote>, p: u16, q: u64)
    requires Reordered(a, b)
    ensures Reordered(Ballots(a, p, q), Ballots(b, p, q)) && |Ballots(a, p, q)| == |Ballots(b, p, q)|
  {
    forall v: Vote
      ensures multiset(Ballots(a, p, q))[v] == multiset(Ballots(b, p, q))[v]
    {
      BallotsCount(a, p, q, v);
      BallotsCount(b, p, q, v);
    }
    assert multiset(Ballots(a, p, q)) == multiset(Ballots(b, p, q));
    assert |Ballots(a, p, q)| == |multiset(Ballots(a, p, q))|;
  }

  lemma ReorderedDistinct(a: seq<Vote>, b: seq<Vote>)
    requires Reordered(a, b)
    ensures Distinct(KeysOf(a)) <==> Distinct(KeysOf(b))
  {
    DistinctBySize(KeysOf(a));
    DistinctBySize(KeysOf(b));
    assert |a| == |multiset(a)| == |b|;
    VotersWithin(a, b);
    VotersWithin(b, a);
    assert Voters(a) == Voters(b);
  }

  lemma VotersWithin(a: seq<Vote>, b: seq<Vote>)
    requires Reordered(a, b)
    ensures Voters(a) <= Voters(b)
  {
    forall k | k in Voters(a) ensures k in Voters(b) {
      var v := VoteOf(a, k);
      ReorderedIn(a, b, v);
      var j :| 0 <= j < |b| && b[j] == v;
      assert KeysOf(b)[j] == k;
    }
  }

  lemma ReorderedWellCast(a: seq<Vote>, b: seq<Vote>, vs: Validators, s: Scheme)
    requires Reordered(a, b) && WellCast(a, vs, s)
    ensures WellCast(b, vs, s)
  {
    ReorderedDistinct(a, b);
    NoFaultMeansSigned(s, a);
    NoFaultMeansSigned(s, b);
    forall i | 0 <= i < |b| ensures b[i].key in vs.keys && Signed(s, b[i]) {
      ReorderedIn(a, b, b[i]);
      var j :| 0 <= j < |a| && a[j] == b[i];
    }
  }

  /** The order in which votes arrive decides neither whether a certificate is issued nor what it says. */
  lemma OrderDoesNotMatter(a: seq<Vote>, b: seq<Vote>, vs: Validators, s: Scheme, ra: Result<Cert>, rb: Result<Cert>)
    requires vs.Valid() && Reordered(a, b)
    requires Finalizes(a, vs, s, ra) && Finalizes(b, vs, s, rb) && ra.Ok?
    ensures rb.Ok? && ra.value.pipe == rb.value.pipe && ra.value.ratio == rb.value.ratio
    ensures ra.value.quorum == rb.value.quorum && Reordered(ra.value.votes, rb.value.votes)
  {
    hide Finalizes, Ballots, WellCast, Accepted;
    var p, q := ra.value.pipe, ra.value.ratio;
    IssuedExactly(a, vs, s, ra);
    IssuedExactly(b, vs, s, rb);
    ReorderedWellCast(a, b, vs, s);
    ReorderedBallots(a, b, p, q);
    assert Carries(b, vs, p, q);
    IssuedIsCertOf(a, vs, s, ra);
    IssuedIsCertOf(b, vs, s, rb);
  }
}
