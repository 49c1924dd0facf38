/** The pairing window and the HMAC proofs exchanged over it. */
module Pairing {
  import opened Text
  import opened GoTime
  import opened Primitives
  import opened Keys
  import Base64

  const REQUEST_LABEL := Ascii("pair_request")
  const ACCEPT_LABEL := Ascii("pair_accept")

  /** Five minutes. */
  const WINDOW_TTL: int := 300_000_000_000

  /** The fields of a window at one moment. */
  datatype WindowState = WindowState(secret: Bytes, expires: Time, used: bool)

  /** What both sides authenticate: the parts joined by line feeds. */
  function Transcript(tag: Str, id: Str, pub: Str): Str {
    tag + [LF] + id + [LF] + pub
  }

  function Mac(c: Suite, secret: Bytes, tag: Str, id: Str, pub: Str): Bytes {
    c.hmac(secret, Transcript(tag, id, pub))
  }

  /** The text carries exactly the MAC of the transcript. */
  predicate Proves(c: Suite, secret: Bytes, tag: Str, id: Str, pub: Str, mac: Str) {
    Base64.Decode(mac, Base64.Std) == Some(Mac(c, secret, tag, id, pub))
  }

  /** The decision of VerifyRequest, which may be asked of no window at all. */
  predicate Verifies(c: Suite, w: Option<WindowState>, now: Time, id: Str, pub: Str, mac: Str) {
    && w.Some? && !w.value.used && now <= w.value.expires
    && Proves(c, w.value.secret, REQUEST_LABEL, id, pub, mac)
  }

  function MacText(c: Suite, secret: Bytes, tag: Str, id: Str, pub: Str): Str {
    Base64.Encode(Mac(c, secret, tag, id, pub), Base64.Std)
  }

  class Window {
    const secret: Bytes
    const expires: Time
    var used: bool

    /** NewWindow, given the 32 bytes the random source produced. */
    constructor (now: Time, secret: Bytes)
      ensures View() == WindowState(secret, now + WINDOW_TTL, false)
    {
      this.secret := secret;
      this.expires := now + WINDOW_TTL;
      this.used := false;
    }

    function View(): WindowState
      reads this
    {
      WindowState(secret, expires, used)
    }

    static method VerifyRequest(c: Suite, w: Window?, now: Time, id: Str, pub: Str, mac: Str) returns (ok: bool)
      ensures ok == Verifies(c, if w == null then None else Some(w.View()), now, id, pub, mac)
    {
      if w == null || w.used || now > w.expires {
        return false;
      }
      var want := Mac(c, w.secret, REQUEST_LABEL, id, pub);
      var got := Base64.Decode(mac, Base64.Std);
      if got.None? {
        return false;
      }
      return want == got.value;
    }

    method Consume()
      modifies this
      ensures View() == old(View()).(used := true)
    {
      used := true;
    }
  }

  /** Client side: the proof sent with a pair_request. */
  function RequestMac(c: Suite, secretText: Str, id: Str, pub: Str): Option<Str> {
    var secret := Base64.Decode(secretText, Base64.RawUrl);
    if secret.None? then None else Some(MacText(c, secret.value, REQUEST_LABEL, id, pub))
  }

  /** Client side: does the pair_accept come from the holder of the secret? */
  predicate VerifyAcceptMac(c: Suite, secretText: Str, agentID: Str, agentPub: Str, mac: Str) {
    var secret := Base64.Decode(secretText, Base64.RawUrl);
    secret.Some? && Proves(c, secret.value, ACCEPT_LABEL, agentID, agentPub, mac)
  }

  lemma MacTextProves(c: Suite, secret: Bytes, tag: Str, id: Str, pub: Str)
    ensures Proves(c, secret, tag, id, pub, MacText(c, secret, tag, id, pub))
  {
    Base64.DecodeEncode(Mac(c, secret, tag, id, pub), Base64.Std);
  }

  const CODE_PREFIX := Ascii("lockping:")

  /** The out-of-band code: what the QR image shows. */
  function EncodePairCode(c: Suite, relayURL: Str, agentID: Str, secretText: Str): Str {
    CODE_PREFIX + Base64.Encode(c.codeJson(relayURL, agentID, secretText), Base64.RawUrl)
  }

  /** Client side: relay URL, agent id and secret of a scanned code. */
  function ReadPairCode(c: Suite, code: Str): Option<(Str, Str, Str)> {
    var text := if HasPrefix(code, CODE_PREFIX) then code[|CODE_PREFIX|..] else code;
    var json := Base64.Decode(text, Base64.RawUrl);
    if json.None? then None else c.codeFields(json.value)
  }

  /** What the code consists of. */
  lemma PairCodeText(c: Suite, relayURL: Str, agentID: Str, secretText: Str)
    ensures var code := EncodePairCode(c, relayURL, agentID, secretText);
            && |code| >= 9 && code[..9] == Ascii("lockping:")
            && Base64.Decode(code[9..], Base64.RawUrl) == Some(c.codeJson(relayURL, agentID, secretText))
  {
    var json := c.codeJson(relayURL, agentID, secretText);
    var text := Base64.Encode(json, Base64.RawUrl);
    Base64.DecodeEncode(json, Base64.RawUrl);
    assert (CODE_PREFIX + text)[9..] == text;
    assert (CODE_PREFIX + text)[..9] == Ascii("lockping:");
  }

  /** A scanned code gives back what was encoded. */
  lemma ReadEncodedPairCode(c: Suite, relayURL: Str, agentID: Str, secret: Bytes)
    requires JsonLaw(c) && c.isText(relayURL) && c.isText(agentID)
    ensures var secretText := Base64.Encode(secret, Base64.RawUrl);
            ReadPairCode(c, EncodePairCode(c, relayURL, agentID, secretText)) == Some((relayURL, agentID, secretText))
  {
    var secretText := Base64.Encode(secret, Base64.RawUrl);
    Base64.EncodedCharacters(secret, Base64.RawUrl);
    assert IsAscii(secretText);
    var json := c.codeJson(relayURL, agentID, secretText);
    var text := Base64.Encode(json, Base64.RawUrl);
    Base64.DecodeEncode(json, Base64.RawUrl);
    assert (CODE_PREFIX + text)[|CODE_PREFIX|..] == text;
  }

  /** The client that holds a window's secret is accepted by the window while it is open, and
      accepts the window's answer. */
  lemma BothSidesAgree(c: Suite, w: WindowState, now: Time, id: Str, pub: Str, agentID: Str, agentPub: Str)
    requires !w.used && now <= w.expires
    ensures var secretText := Base64.Encode(w.secret, Base64.RawUrl);
            var mac := RequestMac(c, secretText, id, pub);
            && mac.Some? && Verifies(c, Some(w), now, id, pub, mac.value)
            && VerifyAcceptMac(c, secretText, agentID, agentPub,
                               MacText(c, w.secret, ACCEPT_LABEL, agentID, agentPub))
  {
    Base64.DecodeEncode(w.secret, Base64.RawUrl);
    MacTextProves(c, w.secret, REQUEST_LABEL, id, pub);
    MacTextProves(c, w.secret, ACCEPT_LABEL, agentID, agentPub);
  }

  /** The text consists of line breaks only. */
  predicate Breaks(y: Str) {
    forall c | c in y :: c == CR || c == LF
  }

  /** The second pair arises from the first by moving the line breaks that lead its key text over
      to the id. */
  ghost predicate Shifted(id: Str, pub: Str, id': Str, pub': Str) {
    exists y: Str :: Breaks(y) && id' == id + [LF] + y && pub == y + [LF] + pub'
  }

  /** Of two readings of one text, the one with the shorter id has the longer key text. */
  lemma SplitLater(id: Str, pub: Str, id': Str, pub': Str) returns (y: Str)
    requires id + [LF] + pub == id' + [LF] + pub' && |id| < |id'|
    ensures id' == id + [LF] + y && pub == y + [LF] + pub'
  {
    var tail := id + [LF] + pub;
    y := id'[|id| + 1..];
    assert id' == tail[..|id'|];
    assert id == tail[..|id|] && tail[|id|] == LF;
    assert id' == id + [LF] + y;
    assert pub == tail[|id| + 1..];
    assert pub == y + [LF] + pub';
  }

  /** Two usable key texts, one the end of the other after a line feed, differ in line breaks only. */
  lemma LeadingTextIsBreaks(y: Str, pub': Str)
    requires DecodeKey(y + [LF] + pub').Some? && DecodeKey(pub').Some?
    ensures Breaks(y) && Base64.Strip(y + [LF] + pub') == Base64.Strip(pub')
  {
    DecodedKeyLength(y + [LF] + pub');
    DecodedKeyLength(pub');
    hide DecodeKey;
    Base64.StripConcat(y + [LF], pub');
    Base64.StripConcat(y, [LF]);
    assert Base64.Strip([LF]) == [];
    Base64.StripEmpty(y);
  }

  lemma ShorterIdShifts(tag: Str, id: Str, pub: Str, id': Str, pub': Str)
    requires Transcript(tag, id, pub) == Transcript(tag, id', pub')
    requires DecodeKey(pub).Some? && DecodeKey(pub').Some?
    requires |id| < |id'|
    ensures Shifted(id, pub, id', pub') && Base64.Strip(pub) == Base64.Strip(pub')
  {
    hide DecodeKey;
    var t := Transcript(tag, id, pub);
    assert t[|tag| + 1..] == id + [LF] + pub;
    assert t[|tag| + 1..] == id' + [LF] + pub';
    var y := SplitLater(id, pub, id', pub');
    LeadingTextIsBreaks(y, pub');
  }

  lemma ShiftCoincides(tag: Str, id: Str, pub: Str, id': Str, pub': Str)
    requires Shifted(id, pub, id', pub')
    ensures Transcript(tag, id, pub) == Transcript(tag, id', pub')
  {
    var y: Str :| Breaks(y) && id' == id + [LF] + y && pub == y + [LF] + pub';
    assert id + [LF] + pub == id' + [LF] + pub';
  }

  lemma SameIdLengthSame(tag: Str, id: Str, pub: Str, id': Str, pub': Str)
    requires Transcript(tag, id, pub) == Transcript(tag, id', pub')
    requires |id| == |id'|
    ensures id == id' && pub == pub'
  {
    var t := Transcript(tag, id, pub);
    assert id == t[|tag| + 1..][..|id|] == id';
    assert pub == t[|tag| + 1..][|id| + 1..] == pub';
  }

  /** Exactly when two transcripts with usable keys coincide: the same id and key text, up to line
      breaks that can be read as the end of the id or as the start of the key text. */
  lemma TranscriptsCoincide(tag: Str, id: Str, pub: Str, id': Str, pub': Str)
    requires DecodeKey(pub).Some? && DecodeKey(pub').Some?
    ensures Transcript(tag, id, pub) == Transcript(tag, id', pub')
            <==> (id == id' && pub == pub') || Shifted(id, pub, id', pub') || Shifted(id', pub', id, pub)
  {
    if Transcript(tag, id, pub) == Transcript(tag, id', pub') {
      if |id| < |id'| {
        ShorterIdShifts(tag, id, pub, id', pub');
      } else if |id'| < |id| {
        ShorterIdShifts(tag, id', pub', id, pub);
      } else {
        SameIdLengthSame(tag, id, pub, id', pub');
      }
    }
    if Shifted(id, pub, id', pub') {
      ShiftCoincides(tag, id, pub, id', pub');
    }
    if Shifted(id', pub', id, pub) {
      ShiftCoincides(tag, id', pub', id, pub);
    }
  }

  /** A transcript binds the key: no second reading of it carries another one. */
  lemma TranscriptBindsKey(tag: Str, id: Str, pub: Str, id': Str, pub': Str)
    requires DecodeKey(pub).Some? && DecodeKey(pub').Some?
    requires Transcript(tag, id, pub) == Transcript(tag, id', pub')
    ensures DecodeKey(pub) == DecodeKey(pub')
    ensures LF !in id && LF !in id' ==> id == id' && pub == pub'
  {
    TranscriptsCoincide(tag, id, pub, id', pub');
    if |id| < |id'| {
      ShorterIdShifts(tag, id, pub, id', pub');
    } else if |id'| < |id| {
      ShorterIdShifts(tag, id', pub', id, pub);
    }
    if LF !in id && LF !in id' {
      var t := Transcript(tag, id, pub);
      assert id + [LF] + pub == t[|tag| + 1..] == id' + [LF] + pub';
      CutUnique(id, id', LF, pub, pub');
    }
  }

  /** An id that may hold line feeds is not bound: two ids share a transcript. */
  lemma IdWithLineFeedIsNotBound(tag: Str, id: Str, k: Key)
    ensures var pub := EncodeKey(k);
            && Transcript(tag, id, [LF] + pub) == Transcript(tag, id + [LF], pub)
            && DecodeKey([LF] + pub) == DecodeKey(pub) == Some(k)
  {
    DecodeEncodeKey(k);
    assert ([LF] + EncodeKey(k))[1..] == EncodeKey(k);
    assert id + [LF] + ([LF] + EncodeKey(k)) == id + [LF] + [LF] + EncodeKey(k);
  }

  /** A request proof never doubles as an accept proof. */
  lemma LabelsSeparate(id: Str, pub: Str, id': Str, pub': Str)
    ensures Transcript(REQUEST_LABEL, id, pub) != Transcript(ACCEPT_LABEL, id', pub')
  {
    assert Transcript(REQUEST_LABEL, id, pub)[5] == REQUEST_LABEL[5] == 114;
    assert Transcript(ACCEPT_LABEL, id', pub')[5] == ACCEPT_LABEL[5] == 97;
  }

  /** Exactly which requests a window accepts: while it exists, is unused and has not expired, those
      whose MAC text is base64 of the HMAC over the label, the id and the key text. */
  lemma VerifiesExactly(c: Suite, w: Option<WindowState>, now: Time, id: Str, pub: Str, mac: Str)
    ensures Verifies(c, w, now, id, pub, mac) <==>
            && w.Some? && !w.value.used && now <= w.value.expires
            && Base64.Decode(mac, Base64.Std)
               == Some(c.hmac(w.value.secret, Ascii("pair_request") + [LF] + id + [LF] + pub))
  {
  }

  /** Exactly which answers a client accepts. */
  lemma AcceptsExactly(c: Suite, secretText: Str, agentID: Str, agentPub: Str, mac: Str)
    ensures VerifyAcceptMac(c, secretText, agentID, agentPub, mac) <==>
            exists secret: Bytes ::
              && Base64.Decode(secretText, Base64.RawUrl) == Some(secret)
              && Base64.Decode(mac, Base64.Std)
                 == Some(c.hmac(secret, Ascii("pair_accept") + [LF] + agentID + [LF] + agentPub))
  {
  }

  /** Two messages with one HMAC. */
  predicate Collision(c: Suite, key: Bytes, m: Bytes, m': Bytes) {
    m != m' && c.hmac(key, m) == c.hmac(key, m')
  }

  /** Whoever reuses a MAC text on a window does so for the same key, and for ids without line feeds
      for the same id and key text; or else has found a collision of the HMAC. */
  lemma OneMacOneKey(c: Suite, w: WindowState, mac: Str, now: Time, id: Str, pub: Str, now': Time, id': Str, pub': Str)
    requires Verifies(c, Some(w), now, id, pub, mac) && Verifies(c, Some(w), now', id', pub', mac)
    requires DecodeKey(pub).Some? && DecodeKey(pub').Some?
    ensures || Collision(c, w.secret, Transcript(REQUEST_LABEL, id, pub), Transcript(REQUEST_LABEL, id', pub'))
            || (DecodeKey(pub) == DecodeKey(pub') && (LF !in id && LF !in id' ==> id == id' && pub == pub'))
  {
    VerifiesExactly(c, Some(w), now, id, pub, mac);
    VerifiesExactly(c, Some(w), now', id', pub', mac);
    if Transcript(REQUEST_LABEL, id, pub) == Transcript(REQUEST_LABEL, id', pub') {
      TranscriptBindsKey(REQUEST_LABEL, id, pub, id', pub');
    }
  }

  /** No MAC text serves both as a request and as an answer, short of a collision. */
  lemma RequestIsNoAnswer(c: Suite, w: WindowState, mac: Str, now: Time, id: Str, pub: Str, agentID: Str, agentPub: Str)
    requires Verifies(c, Some(w), now, id, pub, mac)
    requires VerifyAcceptMac(c, Base64.Encode(w.secret, Base64.RawUrl), agentID, agentPub, mac)
    ensures Collision(c, w.secret, Transcript(REQUEST_LABEL, id, pub), Transcript(ACCEPT_LABEL, agentID, agentPub))
  {
    Base64.DecodeEncode(w.secret, Base64.RawUrl);
    LabelsSeparate(id, pub, agentID, agentPub);
  }
}
