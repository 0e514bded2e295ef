/** CPace as the pairing PIN uses it: two roles over an abstract prime-order group, an
    ordered transcript, and the explicit key confirmation of section 10.4 of
    draft-irtf-cfrg-cpace-21. */
module CPace {
  import opened Wrappers
  import opened Framing
  import opened PrimeGroup

  /** "CPaceRistretto255" */
  const DSI: bytes := [67, 80, 97, 99, 101, 82, 105, 115, 116, 114, 101, 116, 116, 111, 50, 53, 53]

  /** "CPaceRistretto255_ISK" */
  const DSI_ISK: bytes := DSI + [95, 73, 83, 75]

  /** "CPaceMac" */
  const MAC_LABEL: bytes := [67, 80, 97, 99, 101, 77, 97, 99]

  /** The bytes of a label. */
  function BytesOf(text: string): bytes {
    seq(|text|, i requires 0 <= i < |text| => text[i] as int % 256)
  }

  lemma LabelsSpelled()
    ensures DSI == BytesOf("CPaceRistretto255") && DSI_ISK == BytesOf("CPaceRistretto255_ISK")
    ensures MAC_LABEL == BytesOf("CPaceMac")
  {
  }

  /** Length of a SHA-512 digest. */
  const DIGEST_SIZE: nat := 64

  /** The primitives, all of them parameters: the group with its encoding, SHA-512,
      HMAC-SHA-512 and the map from uniform bytes to the group. */
  datatype Suite<!E> = Suite(
    group: Group<E>,
    encode: E -> bytes,
    decode: bytes -> Option<E>,
    sha512: bytes -> bytes,
    hmac: (bytes, bytes) -> bytes,
    fromUniform: bytes -> E)

  ghost predicate WellFormed<E(!new)>(s: Suite<E>) {
    && IsPrimeOrderGroup(s.group)
    && (forall x :: s.decode(s.encode(x)) == Some(x))
    && (forall m :: |s.sha512(m)| == DIGEST_SIZE)
  }

  datatype Inputs = Inputs(prs: bytes, ci: bytes, sid: bytes)

  datatype Error = InvalidShare | NoSessionID | NoRandomness | Spent

  datatype Session = Session(isk: bytes, macKey: bytes, ownMsg: bytes, peerMsg: bytes)

  // ----- the steps both roles share

  function GeneratorInput(inputs: Inputs): bytes {
    GeneratorString(DSI, inputs.prs, inputs.ci, inputs.sid, S_IN_BYTES)
  }

  function Generator<E>(s: Suite<E>, inputs: Inputs): E {
    s.fromUniform(s.sha512(GeneratorInput(inputs)))
  }

  function Share<E>(s: Suite<E>, inputs: Inputs, y: nat): bytes {
    s.encode(Mul(s.group, y, Generator(s, inputs)))
  }

  /** Scalar multiplication with the abort folded in: a scalar already spent, bytes that
      decode to no element, and a neutral product are errors. */
  function ScalarMultVfy<E(==)>(s: Suite<E>, y: Option<nat>, encoded: bytes): Result<bytes, Error> {
    match y
    case None => Err(Spent)
    case Some(scalar) =>
      match s.decode(encoded)
      case None => Err(InvalidShare)
      case Some(x) =>
        var k := Mul(s.group, scalar, x);
        if k == s.group.zero then Err(InvalidShare) else Ok(s.encode(k))
  }

  /** What the intermediate key hashes: the framed label, session id and K, then A's
      message and B's, whichever side computes it. */
  function IskInput(sid: bytes, k: bytes, msgA: bytes, msgB: bytes): bytes {
    LVCat([DSI_ISK, sid, k]) + msgA + msgB
  }

  /** What the MAC key hashes. Nothing here is framed. */
  function MacInput(sid: bytes, isk: bytes): bytes {
    MAC_LABEL + sid + isk
  }

  function NewSession<E>(s: Suite<E>, sid: bytes, k: bytes, ownMsg: bytes, peerMsg: bytes,
                         msgA: bytes, msgB: bytes): Session {
    var isk := s.sha512(IskInput(sid, k, msgA, msgB));
    Session(isk, s.sha512(MacInput(sid, isk)), ownMsg, peerMsg)
  }

  function Confirmation<E>(s: Suite<E>, session: Session): bytes {
    s.hmac(session.macKey, session.ownMsg)
  }

  predicate Verify<E>(s: Suite<E>, session: Session, peerTag: bytes) {
    s.hmac(session.macKey, session.peerMsg) == peerTag
  }

  // ----- B, in one step; no scalar is a failure of the random source

  function Respond<E(==)>(s: Suite<E>, inputs: Inputs, ad: bytes, peerShare: bytes, peerAD: bytes, y: Option<nat>)
    : Result<(bytes, Session), Error>
  {
    if inputs.sid == [] then Err(NoSessionID)
    else if y == None then Err(NoRandomness)
    else
      var share := Share(s, inputs, y.value);
      match ScalarMultVfy(s, y, peerShare)
      case Err(e) => Err(e)
      case Ok(k) =>
        var ownMsg, peerMsg := LVCat([share, ad]), LVCat([peerShare, peerAD]);
        Ok((share, NewSession(s, inputs.sid, k, ownMsg, peerMsg, peerMsg, ownMsg)))
  }

  // ----- A, whose scalar is single use

  /** What finishing gives while the scalar is still there. */
  function Finished<E(==)>(s: Suite<E>, inputs: Inputs, share: bytes, ad: bytes, y: Option<nat>,
                           peerShare: bytes, peerAD: bytes): Result<Session, Error>
  {
    match ScalarMultVfy(s, y, peerShare)
    case Err(e) => Err(e)
    case Ok(k) =>
      var ownMsg, peerMsg := LVCat([share, ad]), LVCat([peerShare, peerAD]);
      Ok(NewSession(s, inputs.sid, k, ownMsg, peerMsg, ownMsg, peerMsg))
  }

  /** What a side holds that shared this element, as A or as B, when its own message and the
      peer's are as given: the hashes written out part by part. */
  ghost predicate HoldsSession<E>(s: Suite<E>, session: Session, sid: bytes, shared: E,
                                  ownShare: bytes, ownAD: bytes, peerShare: bytes, peerAD: bytes, isA: bool) {
    && session.isk == s.sha512(if isA then LVCat([DSI_ISK, sid, s.encode(shared), ownShare, ownAD, peerShare, peerAD])
                               else LVCat([DSI_ISK, sid, s.encode(shared), peerShare, peerAD, ownShare, ownAD]))
    && Confirmation(s, session) == s.hmac(s.sha512(MAC_LABEL + sid + session.isk), LVCat([ownShare, ownAD]))
    && forall tag :: Verify(s, session, tag) <==>
                       tag == s.hmac(s.sha512(MAC_LABEL + sid + session.isk), LVCat([peerShare, peerAD]))
  }

  /** Finishing takes any share that decodes to an element whose product is not neutral, and
      no other; and what it then holds. */
  lemma FinishedExactly<E>(s: Suite<E>, inputs: Inputs, share: bytes, ad: bytes, y: nat, peerShare: bytes, peerAD: bytes)
    ensures var r := Finished(s, inputs, share, ad, Some(y), peerShare, peerAD);
            && (r.Ok? <==> exists x :: s.decode(peerShare) == Some(x) && Mul(s.group, y, x) != s.group.zero)
            && (r.Err? ==> r.error == InvalidShare)
            && (r.Ok? ==> HoldsSession(s, r.value, inputs.sid, Mul(s.group, y, s.decode(peerShare).value),
                                       share, ad, peerShare, peerAD, true))
  {
    if s.decode(peerShare).Some? {
      IskInputIsOneList(inputs.sid, s.encode(Mul(s.group, y, s.decode(peerShare).value)), share, ad, peerShare, peerAD);
    }
  }

  /** Responding refuses a missing session id first, then missing randomness, then such a
      share; else it answers with a share of its own and holds the session of B. */
  lemma RespondExactly<E>(s: Suite<E>, inputs: Inputs, ad: bytes, peerShare: bytes, peerAD: bytes, y: Option<nat>)
    ensures var r := Respond(s, inputs, ad, peerShare, peerAD, y);
            && (r == Err(NoSessionID) <==> inputs.sid == [])
            && (r == Err(NoRandomness) <==> inputs.sid != [] && y == None)
            && (r.Ok? <==> inputs.sid != [] && y.Some?
                           && exists x :: s.decode(peerShare) == Some(x) && Mul(s.group, y.value, x) != s.group.zero)
            && (r.Err? ==> r.error == NoSessionID || r.error == NoRandomness || r.error == InvalidShare)
            && (r.Ok? ==>
                  var share := s.encode(Mul(s.group, y.value,
                    s.fromUniform(s.sha512(GeneratorString(DSI, inputs.prs, inputs.ci, inputs.sid, S_IN_BYTES)))));
                  && r.value.0 == share
                  && HoldsSession(s, r.value.1, inputs.sid, Mul(s.group, y.value, s.decode(peerShare).value),
                                  share, ad, peerShare, peerAD, false))
  {
    if inputs.sid != [] && y.Some? && s.decode(peerShare).Some? {
      IskInputIsOneList(inputs.sid, s.encode(Mul(s.group, y.value, s.decode(peerShare).value)),
                        peerShare, peerAD, Share(s, inputs, y.value), ad);
    }
  }

  class Initiator<E(==)> {
    const suite: Suite<E>
    const inputs: Inputs
    const share: bytes
    const ad: bytes
    var y: Option<nat>
    var done: bool

    /** A finished initiator holds no scalar. */
    ghost predicate Valid()
      reads this
    {
      done ==> y == None
    }

    constructor (suite: Suite<E>, inputs: Inputs, y: nat, ad: bytes)
      ensures this.suite == suite && this.inputs == inputs && this.ad == ad
      ensures share == suite.encode(Mul(suite.group, y,
                suite.fromUniform(suite.sha512(GeneratorString(DSI, inputs.prs, inputs.ci, inputs.sid, S_IN_BYTES)))))
      ensures share == Share(suite, inputs, y) && this.y == Some(y) && !done && Valid()
    {
      this.suite, this.inputs, this.ad := suite, inputs, ad;
      share := Share(suite, inputs, y);
      this.y := Some(y);
      done := false;
    }

    /** The first call derives the session from the peer's message; every call forgets the
        scalar, whether or not it worked, and every later call is refused. */
    method Finish(peerShare: bytes, peerAD: bytes) returns (r: Result<Session, Error>)
      requires Valid()
      modifies this
      ensures Valid() && done && y == None
      ensures r == if old(done) then Err(Spent)
                   else Finished(suite, inputs, share, ad, old(y), peerShare, peerAD)
      ensures !old(done) && old(y).Some? ==>
                && (r.Ok? <==> suite.decode(peerShare).Some?
                               && Mul(suite.group, old(y).value, suite.decode(peerShare).value) != suite.group.zero)
                && (r.Err? ==> r.error == InvalidShare)
                && (r.Ok? ==> HoldsSession(suite, r.value, inputs.sid,
                                           Mul(suite.group, old(y).value, suite.decode(peerShare).value),
                                           share, ad, peerShare, peerAD, true))
    {
      if !done && y.Some? {
        FinishedExactly(suite, inputs, share, ad, y.value, peerShare, peerAD);
      }
      if done {
        return Err(Spent);
      }
      done := true;
      var scalar := y;
      y := None;
      var k := ScalarMultVfy(suite, scalar, peerShare);
      if k.Err? {
        return Err(k.error);
      }
      var ownMsg := LVCat([share, ad]);
      var peerMsg := LVCat([peerShare, peerAD]);
      return Ok(NewSession(suite, inputs.sid, k.value, ownMsg, peerMsg, ownMsg, peerMsg));
    }
  }

  /** Starts an exchange, or refuses one without a session id or without randomness. */
  method NewInitiator<E(==)>(suite: Suite<E>, inputs: Inputs, ad: bytes, y: Option<nat>)
    returns (r: Result<Initiator<E>, Error>)
    ensures r.Err? <==> inputs.sid == [] || y == None
    ensures r.Err? ==> r.error == if inputs.sid == [] then NoSessionID else NoRandomness
    ensures r.Ok? ==> && fresh(r.value) && r.value.Valid() && !r.value.done && r.value.y == y
                      && r.value.suite == suite && r.value.inputs == inputs && r.value.ad == ad
                      && r.value.share == Share(suite, inputs, y.value)
  {
    if inputs.sid == [] {
      return Err(NoSessionID);
    }
    if y == None {
      return Err(NoRandomness);
    }
    var a := new Initiator(suite, inputs, y.value, ad);
    return Ok(a);
  }

  // ----- one exchange with unaltered shares

  /** Everything that goes into one exchange: each side's inputs, scalar and associated
      data, and what each side believes the other's associated data was. */
  datatype Exchange = Exchange(
    inA: Inputs, inB: Inputs, yA: nat, yB: nat,
    adA: bytes, adB: bytes, adASeenByB: bytes, adBSeenByA: bytes)
  {
    /** Both sides used the same inputs and hold one view of both messages. */
    predicate Agree() {
      inA == inB && adASeenByB == adA && adBSeenByA == adB
    }
  }

  ghost predicate ValidExchange<E(!new)>(s: Suite<E>, x: Exchange) {
    && WellFormed(s)
    && IsScalar(s.group, x.yA) && IsScalar(s.group, x.yB)
    && x.inA.sid != [] && x.inB.sid != []
  }

  function ResultOfB<E(==)>(s: Suite<E>, x: Exchange): Result<(bytes, Session), Error> {
    Respond(s, x.inB, x.adB, Share(s, x.inA, x.yA), x.adASeenByB, Some(x.yB))
  }

  function ResultOfA<E(==)>(s: Suite<E>, x: Exchange): Result<Session, Error> {
    Finished(s, x.inA, Share(s, x.inA, x.yA), x.adA, Some(x.yA), Share(s, x.inB, x.yB), x.adBSeenByA)
  }

  ghost predicate NoCollision<A, B>(f: A -> B, x: A, y: A) {
    f(x) == f(y) ==> x == y
  }

  ghost predicate NoTagCollision<E>(s: Suite<E>, key: bytes, msg: bytes, key': bytes, msg': bytes) {
    s.hmac(key, msg) == s.hmac(key', msg') ==> key == key' && msg == msg'
  }

  function KeyOfA<E>(s: Suite<E>, x: Exchange): bytes {
    s.encode(Mul(s.group, x.yA, Mul(s.group, x.yB, Generator(s, x.inB))))
  }

  function KeyOfB<E>(s: Suite<E>, x: Exchange): bytes {
    s.encode(Mul(s.group, x.yB, Mul(s.group, x.yA, Generator(s, x.inA))))
  }

  function IskInputOfA<E>(s: Suite<E>, x: Exchange): bytes {
    IskInput(x.inA.sid, KeyOfA(s, x),
             LVCat([Share(s, x.inA, x.yA), x.adA]), LVCat([Share(s, x.inB, x.yB), x.adBSeenByA]))
  }

  function IskInputOfB<E>(s: Suite<E>, x: Exchange): bytes {
    IskInput(x.inB.sid, KeyOfB(s, x),
             LVCat([Share(s, x.inA, x.yA), x.adASeenByB]), LVCat([Share(s, x.inB, x.yB), x.adB]))
  }

  /** The idealised primitives: none of the values the two sides hash, map or tag in this
      one exchange collide. Nothing is asked of any other input. */
  ghost predicate NoCollisions<E>(s: Suite<E>, x: Exchange, a: Session, b: Session) {
    && NoCollision(s.sha512, GeneratorInput(x.inA), GeneratorInput(x.inB))
    && NoCollision(s.fromUniform, s.sha512(GeneratorInput(x.inA)), s.sha512(GeneratorInput(x.inB)))
    && NoCollision(s.sha512, IskInputOfA(s, x), IskInputOfB(s, x))
    && NoCollision(s.sha512, MacInput(x.inA.sid, a.isk), MacInput(x.inB.sid, b.isk))
    && NoTagCollision(s, a.macKey, a.peerMsg, b.macKey, b.ownMsg)
    && NoTagCollision(s, b.macKey, b.peerMsg, a.macKey, a.ownMsg)
  }

  // ----- when an exchange fails

  /** B refuses an unaltered share exactly when A's generator is the neutral element, and A
      refuses B's exactly when B's is. */
  lemma FailsExactlyOnNeutralGenerator<E(!new)>(s: Suite<E>, x: Exchange)
    requires ValidExchange(s, x)
    ensures ResultOfB(s, x).Err? <==> Generator(s, x.inA) == s.group.zero
    ensures ResultOfA(s, x).Err? <==> Generator(s, x.inB) == s.group.zero
    ensures ResultOfB(s, x).Err? ==> ResultOfB(s, x).error == InvalidShare
    ensures ResultOfA(s, x).Err? ==> ResultOfA(s, x).error == InvalidShare
  {
    var gA, gB := Generator(s, x.inA), Generator(s, x.inB);
    MulIsZero(s.group, x.yA, gA);
    MulIsZero(s.group, x.yB, Mul(s.group, x.yA, gA));
    MulIsZero(s.group, x.yB, gB);
    MulIsZero(s.group, x.yA, Mul(s.group, x.yB, gB));
  }

  // ----- when the two sides confirm

  lemma SessionsOf<E(!new)>(s: Suite<E>, x: Exchange, a: Session, b: Session)
    requires ValidExchange(s, x)
    requires ResultOfA(s, x) == Ok(a) && ResultOfB(s, x) == Ok((Share(s, x.inB, x.yB), b))
    ensures a.isk == s.sha512(IskInputOfA(s, x)) && a.macKey == s.sha512(MacInput(x.inA.sid, a.isk))
    ensures b.isk == s.sha512(IskInputOfB(s, x)) && b.macKey == s.sha512(MacInput(x.inB.sid, b.isk))
    ensures a.ownMsg == LVCat([Share(s, x.inA, x.yA), x.adA])
    ensures a.peerMsg == LVCat([Share(s, x.inB, x.yB), x.adBSeenByA])
    ensures b.ownMsg == LVCat([Share(s, x.inB, x.yB), x.adB])
    ensures b.peerMsg == LVCat([Share(s, x.inA, x.yA), x.adASeenByB])
  {
  }

  /** The two sides compute one K exactly when they started from the same inputs. */
  lemma SameKeyIffSameInputs<E(!new)>(s: Suite<E>, x: Exchange)
    requires ValidExchange(s, x)
    requires NoCollision(s.sha512, GeneratorInput(x.inA), GeneratorInput(x.inB))
    requires NoCollision(s.fromUniform, s.sha512(GeneratorInput(x.inA)), s.sha512(GeneratorInput(x.inB)))
    ensures KeyOfA(s, x) == KeyOfB(s, x) <==> x.inA == x.inB
  {
    var g, gA, gB := s.group, Generator(s, x.inA), Generator(s, x.inB);
    MulCommutes(g, x.yA, x.yB, gB);
    if x.inA == x.inB {
    } else if KeyOfA(s, x) == KeyOfB(s, x) {
      var eA, eB := Mul(g, x.yA, Mul(g, x.yB, gB)), Mul(g, x.yB, Mul(g, x.yA, gA));
      assert s.decode(s.encode(eA)) == Some(eA) && s.decode(s.encode(eB)) == Some(eB);
      assert Mul(g, x.yB, Mul(g, x.yA, gB)) == Mul(g, x.yB, Mul(g, x.yA, gA));
      MulCancels(g, x.yB, Mul(g, x.yA, gB), Mul(g, x.yA, gA));
      MulCancels(g, x.yA, gB, gA);
      GeneratorStringInjective(DSI, x.inA.prs, x.inA.ci, x.inA.sid,
                               DSI, x.inB.prs, x.inB.ci, x.inB.sid, S_IN_BYTES);
      assert false;
    }
  }

  /** The hashed transcript determines the session id, K and both framed messages. */
  lemma IskInputInjective(sid: bytes, k: bytes, shareA: bytes, adA: bytes, shareB: bytes, adB: bytes,
                          sid': bytes, k': bytes, shareA': bytes, adA': bytes, shareB': bytes, adB': bytes)
    ensures IskInput(sid, k, LVCat([shareA, adA]), LVCat([shareB, adB]))
         == IskInput(sid', k', LVCat([shareA', adA']), LVCat([shareB', adB']))
       <==> (sid, k, shareA, adA, shareB, adB) == (sid', k', shareA', adA', shareB', adB')
  {
    IskInputIsOneList(sid, k, shareA, adA, shareB, adB);
    IskInputIsOneList(sid', k', shareA', adA', shareB', adB');
    if IskInput(sid, k, LVCat([shareA, adA]), LVCat([shareB, adB]))
    == IskInput(sid', k', LVCat([shareA', adA']), LVCat([shareB', adB'])) {
      var p, q := [DSI_ISK, sid, k, shareA, adA, shareB, adB], [DSI_ISK, sid', k', shareA', adA', shareB', adB'];
      LVCatInjective(p, q);
      assert p[1] == q[1] && p[2] == q[2] && p[3] == q[3] && p[4] == q[4] && p[5] == q[5] && p[6] == q[6];
    }
  }

  lemma IskInputIsOneList(sid: bytes, k: bytes, shareA: bytes, adA: bytes, shareB: bytes, adB: bytes)
    ensures IskInput(sid, k, LVCat([shareA, adA]), LVCat([shareB, adB]))
         == LVCat([DSI_ISK, sid, k, shareA, adA, shareB, adB])
  {
    LVCatAppend([DSI_ISK, sid, k], [shareA, adA]);
    assert [DSI_ISK, sid, k] + [shareA, adA] == [DSI_ISK, sid, k, shareA, adA];
    LVCatAppend([DSI_ISK, sid, k, shareA, adA], [shareB, adB]);
    assert [DSI_ISK, sid, k, shareA, adA] + [shareB, adB] == [DSI_ISK, sid, k, shareA, adA, shareB, adB];
  }

  /** The unframed MAC-key input still determines the session id and the key, because the
      key has the fixed length of a digest. */
  lemma MacInputInjective(sid: bytes, isk: bytes, sid': bytes, isk': bytes)
    requires |isk| == |isk'|
    ensures MacInput(sid, isk) == MacInput(sid', isk') <==> sid == sid' && isk == isk'
  {
    var m, m' := MacInput(sid, isk), MacInput(sid', isk');
    if m == m' {
      var n := |MAC_LABEL|;
      assert m[n..n + |sid|] == sid && m'[n..n + |sid'|] == sid';
      assert m[n + |sid|..] == isk && m'[n + |sid'|..] == isk';
    }
  }

  /** Without the fixed length the same bytes come from different pairs. */
  lemma MacInputNeedsFixedLength()
    ensures exists sid, isk, sid', isk' ::
              MacInput(sid, isk) == MacInput(sid', isk') && (sid != sid' && isk != isk')
  {
    assert MacInput([1], [2]) == MacInput([1, 2], []);
  }

  lemma PairInjective(share: bytes, ad: bytes, ad': bytes)
    ensures LVCat([share, ad]) == LVCat([share, ad']) <==> ad == ad'
  {
    if LVCat([share, ad]) == LVCat([share, ad']) {
      LVCatInjective([share, ad], [share, ad']);
      assert [share, ad][1] == [share, ad'][1];
    }
  }

  /** Both sides derive one intermediate key exactly when they agree. */
  lemma SameIskIffAgree<E(!new)>(s: Suite<E>, x: Exchange, a: Session, b: Session)
    requires ValidExchange(s, x)
    requires ResultOfA(s, x) == Ok(a) && ResultOfB(s, x) == Ok((Share(s, x.inB, x.yB), b))
    requires NoCollisions(s, x, a, b)
    ensures a.isk == b.isk <==> x.Agree()
  {
    SessionsOf(s, x, a, b);
    SameKeyIffSameInputs(s, x);
    IskInputInjective(x.inA.sid, KeyOfA(s, x), Share(s, x.inA, x.yA), x.adA, Share(s, x.inB, x.yB), x.adBSeenByA,
                      x.inB.sid, KeyOfB(s, x), Share(s, x.inA, x.yA), x.adASeenByB, Share(s, x.inB, x.yB), x.adB);
  }

  /** The main result. With the shares delivered unaltered, each side accepts the other's
      confirmation exactly when both used the same password string, channel identifier and
      session id and hold one view of both sides' associated data; and then, and only then,
      both hold the same key. */
  lemma ConfirmationIffAgreement<E(!new)>(s: Suite<E>, x: Exchange, a: Session, b: Session)
    requires ValidExchange(s, x)
    requires ResultOfA(s, x) == Ok(a) && ResultOfB(s, x) == Ok((Share(s, x.inB, x.yB), b))
    requires NoCollisions(s, x, a, b)
    ensures Verify(s, a, Confirmation(s, b)) <==> x.Agree()
    ensures Verify(s, b, Confirmation(s, a)) <==> x.Agree()
    ensures a.isk == b.isk <==> x.Agree()
  {
    SessionsOf(s, x, a, b);
    SameIskIffAgree(s, x, a, b);
    MacInputInjective(x.inA.sid, a.isk, x.inB.sid, b.isk);
    assert a.macKey == b.macKey <==> x.inA.sid == x.inB.sid && a.isk == b.isk;
    PairInjective(Share(s, x.inB, x.yB), x.adBSeenByA, x.adB);
    PairInjective(Share(s, x.inA, x.yA), x.adASeenByB, x.adA);
  }

  /** A side accepts its own tag handed back exactly when the message it received is the
      message it sent. */
  lemma OwnTagAcceptedIffSameMessage<E(!new)>(s: Suite<E>, inputs: Inputs, share: bytes, ad: bytes, y: nat,
                                                  peerShare: bytes, peerAD: bytes, a: Session)
    requires Finished(s, inputs, share, ad, Some(y), peerShare, peerAD) == Ok(a)
    requires NoTagCollision(s, a.macKey, a.peerMsg, a.macKey, a.ownMsg)
    ensures Verify(s, a, Confirmation(s, a)) <==> peerShare == share && peerAD == ad
  {
    if a.peerMsg == a.ownMsg {
      LVCatInjective([peerShare, peerAD], [share, ad]);
      assert [peerShare, peerAD][0] == [share, ad][0];
      assert [peerShare, peerAD][1] == [share, ad][1];
    }
  }

  /** Such a message yields a session: a share and associated data handed back unaltered are
      taken, and then the tag is, unless the generator is the neutral element. */
  lemma OwnMessageIsAccepted<E(!new)>(s: Suite<E>, inputs: Inputs, ad: bytes, y: nat)
    requires WellFormed(s) && IsScalar(s.group, y) && Generator(s, inputs) != s.group.zero
    ensures var share := Share(s, inputs, y);
            var r := Finished(s, inputs, share, ad, Some(y), share, ad);
            r.Ok? && Verify(s, r.value, Confirmation(s, r.value))
  {
    MulIsZero(s.group, y, Generator(s, inputs));
    MulIsZero(s.group, y, Mul(s.group, y, Generator(s, inputs)));
  }

  // ----- the assumptions can be met

  /** One bit under exclusive or, with an encoding of it and a digest of the right length. */
  const ONE_BIT: Suite<bool> := Suite(
    EXCLUSIVE_OR,
    (x: bool) => if x then [1] else [0],
    (b: bytes) => if b == [1] then Some(true) else if b == [0] then Some(false) else None,
    (m: bytes) => Zeros(DIGEST_SIZE),
    (key: bytes, m: bytes) => [],
    (m: bytes) => true)

  lemma AssumptionsCanBeMet(inputs: Inputs)
    ensures WellFormed(ONE_BIT) && IsScalar(ONE_BIT.group, 1) && Generator(ONE_BIT, inputs) != ONE_BIT.group.zero
  {
    ExclusiveOrIsPrimeOrder();
  }
}
