/** A host's output arrives in pieces; where it is cut does not matter to the terminal. */
module VtStream {
  import opened JsText
  import opened VtParser
  import opened VtSplit
  import H = HtermUtf8

  /** The interpreter after some pieces: its decoder, its mode, and everything handed over. */
  datatype Fed = Fed(decoder: H.DecoderState, mode: Mode, events: seq<Event>, crashed: bool)

  function Feed(d: H.DecoderState, m: Mode, pieces: seq<Text>, eightBit: bool): Fed
    decreases |pieces|
  {
    if pieces == [] then Fed(d, m, [], false)
    else
      var decoded := H.Run(d, pieces[0]);
      var r := Interpret(m, decoded.text, eightBit);
      if r.crashed then Fed(decoded.state, r.mode, r.events, true)
      else
        var rest := Feed(decoded.state, r.mode, pieces[1..], eightBit);
        rest.(events := r.events + rest.events)
  }

  lemma FeedCons(d: H.DecoderState, m: Mode, pieces: seq<Text>, eightBit: bool)
    ensures Feed(d, m, pieces, eightBit) ==
            if pieces == [] then Fed(d, m, [], false)
            else
              var decoded := H.Run(d, pieces[0]);
              var r := Interpret(m, decoded.text, eightBit);
              if r.crashed then Fed(decoded.state, r.mode, r.events, true)
              else
                var rest := Feed(decoded.state, r.mode, pieces[1..], eightBit);
                rest.(events := r.events + rest.events)
  {
    hide Interpret, H.Run;
  }

  lemma RunNothing(d: H.DecoderState)
    ensures H.Run(d, []) == H.Decoded(d, [], false)
  {
  }

  /** Every cut between two pieces is a good one. */
  predicate GoodCuts(d: H.DecoderState, m: Mode, pieces: seq<Text>, eightBit: bool)
    decreases |pieces|
  {
    pieces == []
    || (var first := H.Run(d, pieces[0]);
        var r := Interpret(m, first.text, eightBit);
        && GoodCut(m, first.text, H.Run(first.state, Concat(pieces[1..])).text, eightBit)
        && (r.crashed || GoodCuts(first.state, r.mode, pieces[1..], eightBit)))
  }

  lemma GoodCutsIs(d: H.DecoderState, m: Mode, pieces: seq<Text>, eightBit: bool)
    requires pieces != []
    ensures var first := H.Run(d, pieces[0]);
            var r := Interpret(m, first.text, eightBit);
            GoodCuts(d, m, pieces, eightBit) <==>
              && GoodCut(m, first.text, H.Run(first.state, Concat(pieces[1..])).text, eightBit)
              && (r.crashed || GoodCuts(first.state, r.mode, pieces[1..], eightBit))
  {
    hide Interpret, H.Run, GoodCut;
  }

  /** However a byte stream is cut into pieces, even inside a character, an escape sequence or a
      string sequence, the same things are printed and dispatched and the parser ends in the same
      state, the decoder too unless an exception is raised: provided that no piece ends in a
      string sequence that has an escape character and ends in a later piece. */
  lemma {:induction false} PiecesDoNotMatter(d: H.DecoderState, m: Mode, pieces: seq<Text>, eightBit: bool)
    requires Waiting(m) && GoodCuts(d, m, pieces, eightBit)
    ensures var decoded := H.Run(d, Concat(pieces));
            var whole := Interpret(m, decoded.text, eightBit);
            var fed := Feed(d, m, pieces, eightBit);
            && fed.mode == whole.mode && fed.crashed == whole.crashed && Flat(fed.events) == Flat(whole.events)
            && (!whole.crashed ==> fed.decoder == decoded.state)
    decreases |pieces|
  {
    hide *;
    ConcatCons(pieces);
    FeedCons(d, m, pieces, eightBit);
    if pieces == [] {
      RunNothing(d);
      InterpretStep(m, [], eightBit);
    } else {
      var rest := Concat(pieces[1..]);
      H.RunConcat(d, pieces[0], rest);
      GoodCutsIs(d, m, pieces, eightBit);
      var first := H.Run(d, pieces[0]);
      var second := H.Run(first.state, rest);
      SplitExactly(m, first.text, second.text, eightBit);
      UnnoticedMeans(m, first.text, second.text, eightBit);
      var r := Interpret(m, first.text, eightBit);
      if !r.crashed {
        TraceIs(m, first.text, eightBit);
        TraceKeepsWaiting(m, first.text, eightBit);
        PiecesDoNotMatter(first.state, r.mode, pieces[1..], eightBit);
        var later := Feed(first.state, r.mode, pieces[1..], eightBit);
        FlatConcat(r.events, later.events);
        FlatConcat(r.events, Interpret(r.mode, second.text, eightBit).events);
      }
    }
  }

  lemma UnnoticedMeans(m: Mode, a: Text, b: Text, eightBit: bool)
    requires Unnoticed(m, a, b, eightBit)
    ensures var whole := Interpret(m, a + b, eightBit);
            var first := Interpret(m, a, eightBit);
            var rest := Interpret(first.mode, b, eightBit);
            if first.crashed then whole.crashed && whole.mode == first.mode && Flat(whole.events) == Flat(first.events)
            else whole.crashed == rest.crashed && whole.mode == rest.mode && Flat(whole.events) == Flat(first.events + rest.events)
  {
  }

  /** A stream that opens no string sequence can be cut anywhere, and raises no exception. */
  lemma {:induction false} PlainStream(d: H.DecoderState, m: Mode, pieces: seq<Text>, eightBit: bool)
    requires Plain(m, H.Run(d, Concat(pieces)).text, eightBit)
    ensures Waiting(m) && GoodCuts(d, m, pieces, eightBit)
    ensures !Interpret(m, H.Run(d, Concat(pieces)).text, eightBit).crashed
    decreases |pieces|
  {
    hide *;
    var whole := H.Run(d, Concat(pieces)).text;
    InterpretIsRun(m, whole, eightBit);
    assert [] + whole == whole;
    PlainIsGood(m, [], whole, eightBit);
    if pieces == [] {
      NoPieces(d, m, eightBit);
    } else {
      ConcatCons(pieces);
      var rest := Concat(pieces[1..]);
      H.RunConcat(d, pieces[0], rest);
      var first := H.Run(d, pieces[0]);
      var second := H.Run(first.state, rest);
      PlainIsGood(m, first.text, second.text, eightBit);
      SplitInvariance(m, first.text, second.text, eightBit);
      GoodCutsIs(d, m, pieces, eightBit);
      PlainStream(first.state, Interpret(m, first.text, eightBit).mode, pieces[1..], eightBit);
    }
  }

  lemma NoPieces(d: H.DecoderState, m: Mode, eightBit: bool)
    ensures GoodCuts(d, m, [], eightBit)
  {
  }
}
