/** What JSON_Validate decides: the main results about the validator. */
module JsonText {
  import opened Bytes
  import opened JsonGrammar
  import opened JsonScan
  import opened JsonCollection
  import opened JsonTokens
  import opened JsonComplete
  import JsonSound

  lemma {:induction false} DocParts(d: Doc)
    ensures var buf, i := DocText(d), |d.before|;
            var e := i + |Text(d.value)|;
            At(buf, 0, d.before) && At(buf, i, Text(d.value)) && At(buf, e, d.after) && |buf| == e + |d.after|
  {
    hide Text;
  }

  lemma {:induction false} DocWf(d: Doc)
    requires WfDoc(d)
    ensures Wf(d.value) && AllSpace(d.before) && AllSpace(d.after)
  {
  }

  lemma {:induction false} DocLayout(d: Doc)
    requires WfDoc(d)
    ensures var buf, i := DocText(d), |d.before|;
            var e := i + |Text(d.value)|;
            && At(buf, i, Text(d.value)) && EndsNumber(buf, e) && i < e <= |buf|
            && SpaceEnd(buf, 0) == i == SpaceEnd(buf, i) && SpaceEnd(buf, e) == |buf|
            && buf[i] == Text(d.value)[0] && !IsSpace(buf[i])
  {
    hide Text, Wf, At, DocText, WfDoc;
    var buf, i := DocText(d), |d.before|;
    var e := i + |Text(d.value)|;
    DocWf(d);
    DocParts(d);
    TextStart(d.value);
    AtByte(buf, i, Text(d.value), 0);
    if d.value.Coll? {
      StartIsOpen(d.value);
    }
    SpaceRun(buf, 0, d.before);
    SpaceRun(buf, e, d.after);
    if d.after != [] {
      AtByte(buf, e, d.after, 0);
    }
  }

  /** Every text of the grammar is accepted when it nests at most 32 deep, and is found too deep otherwise. */
  lemma {:induction false} VerdictComplete(d: Doc)
    requires WfDoc(d)
    ensures Verdict(DocText(d)) == if Height(d.value) <= MAX_DEPTH then Success else MaxDepthExceeded
  {
    hide Text, Wf, DocText, WfDoc, ScalarEnd, SpaceEnd, Run, At, EndsNumber;
    var buf, i, v := DocText(d), |d.before|, d.value;
    assert Wf(v) by { DocWf(d); }
    DocLayout(d);
    if v.Coll? {
      if ScalarEnd(buf, i).Some? {
        ScalarStart(buf, i);
      }
      StartIsOpen(v);
      ValueComplete(buf, i, v, []);
    } else {
      ScalarComplete(buf, i, v);
    }
  }

  lemma {:induction false} Pieces(buf: seq<byte>, i: nat, e: nat)
    requires i <= e <= |buf|
    ensures buf == buf[..i] + buf[i..e] + buf[e..] && buf[0..i] == buf[..i] && buf[e..|buf|] == buf[e..]
  {
  }

  lemma {:induction false} ScalarFlat(v: Value)
    requires !v.Coll?
    ensures Height(v) == 0
  {
  }

  lemma {:induction false} AcceptedValue(buf: seq<byte>) returns (v: Value)
    requires Verdict(buf) == Success
    ensures var i := SpaceEnd(buf, 0);
            && Wf(v) && Height(v) <= MAX_DEPTH && At(buf, i, Text(v)) && SpaceEnd(buf, i + |Text(v)|) == |buf|
  {
    hide ScalarEnd, Run, Text, Wf, SpaceEnd, At, Height;
    var i := SpaceEnd(buf, 0);
    if ScalarEnd(buf, i).Some? {
      v := ScalarSound(buf, i);
      ScalarFlat(v);
    } else {
      v := JsonSound.CollectionSound(buf, i);
    }
  }

  /** Every accepted text has a derivation that nests at most 32 deep. */
  lemma {:induction false} VerdictSound(buf: seq<byte>) returns (d: Doc)
    requires Verdict(buf) == Success
    ensures WfDoc(d) && Height(d.value) <= MAX_DEPTH && DocText(d) == buf
  {
    hide Verdict, Text, Wf, SpaceEnd, AllSpace, Height;
    var i := SpaceEnd(buf, 0);
    var v := AcceptedValue(buf);
    var e := i + |Text(v)|;
    SpacesAre(buf, 0);
    SpacesAre(buf, e);
    d := Doc(buf[..i], v, buf[e..]);
    Pieces(buf, i, e);
  }

  /** JSON_Validate succeeds exactly on the texts of the grammar with nesting at most 32. */
  lemma {:induction false} VerdictExact(buf: seq<byte>)
    ensures Verdict(buf) == Success <==>
            exists d :: WfDoc(d) && DocText(d) == buf && Height(d.value) <= MAX_DEPTH
  {
    hide Verdict, WfDoc, DocText, Height;
    if Verdict(buf) == Success {
      var d := VerdictSound(buf);
    }
    forall d | WfDoc(d) && DocText(d) == buf && Height(d.value) <= MAX_DEPTH ensures Verdict(buf) == Success {
      VerdictComplete(d);
    }
  }

  /** Every text of RFC 8259 in valid UTF-8 whose \u escapes are nonzero and properly paired. */
  lemma {:induction false} RfcTexts(d: Doc)
    requires StrictDoc(d)
    ensures Verdict(DocText(d)) == if Height(d.value) <= MAX_DEPTH then Success else MaxDepthExceeded
  {
    VerdictComplete(d);
  }

  /** `[1,`: valid so far and incomplete, but called illegal and not partial. */
  lemma {:induction false} TrailingCommaIllegal(buf: seq<byte>)
    requires buf == [SQUARE_OPEN, 0x31, COMMA]
    ensures Verdict(buf) == IllegalDocument
  {
    assert SpaceEnd(buf, 0) == 0 && ScalarEnd(buf, 0) == None;
    assert DigitsEnd(buf, 2) == 2 && DigitsEnd(buf, 1) == 2;
    assert ScalarEnd(buf, 1) == Some(2);
    assert SpaceEnd(buf, 1) == 1 && SpaceEnd(buf, 2) == 2 && SpaceEnd(buf, 3) == 3;
    assert CommaEnd(buf, 2) == (2, false);
    assert ScalarsEnd(buf, 1, SQUARE_OPEN) == Some(2);
    var st := [SQUARE_OPEN];
    assert Run(buf, 2, st) == ILLEGAL;
    assert Resume(buf, 1, st) == ILLEGAL;
    assert [] + [buf[0]] == st;
    assert Run(buf, 0, []) == ILLEGAL;
  }
}
