/** The lexing-only engine: input feeds the gate byte by byte, the gate feeds the
    lexer, and a completed match may rewind the input.  Specified by the plain
    longest-match tokenizer. */
module Lexing {
  import opened Options
  import opened Selections

  // 0..255 in every input.
  type Byte = int

  // What the recognizer is asked: the terminals that match a string of bytes, and
  // whether a string can still be extended to a match.
  datatype Oracle = Oracle(tokens: seq<Byte> -> set<nat>, viable: seq<Byte> -> bool, lexemes: nat) {
    predicate Accepts(w: seq<Byte>) { tokens(w) != {} }

    // No zero-length lexemes; viable strings are the prefixes of matches.
    ghost predicate Coherent() {
      && !Accepts([])
      && forall w :: viable(w) <==> exists u :: Accepts(w + u)
    }

    predicate Exhausted(w: seq<Byte>) { forall b: int :: 0 <= b < 256 ==> !viable(w + [b]) }

    function Expected(w: seq<Byte>): set<Byte> { set b: Byte | 0 <= b < 256 && viable(w + [b]) }

    // Terminals from `lexemes` up stand for discards.
    function Found(w: seq<Byte>): set<nat> { set t | t in tokens(w) && t < lexemes }
  }

  // ----- The longest-match tokenizer ---------------------------------------------

  datatype Span = Span(start: nat, text: seq<Byte>)

  datatype Scan = Scan(spans: seq<Span>, ok: bool)

  // The length of the longest match at the start of w, among the first n bytes; 0 for none.
  function Longest(o: Oracle, w: seq<Byte>, n: nat): (k: nat)
    requires n <= |w|
    ensures k <= n && (k > 0 ==> o.Accepts(w[..k]))
    ensures forall j :: k < j <= n ==> !o.Accepts(w[..j])
  {
    if n == 0 then 0 else if o.Accepts(w[..n]) then n else Longest(o, w, n - 1)
  }

  function Tokenize(o: Oracle, input: seq<Byte>, at: nat): Scan
    requires at <= |input|
    decreases |input| - at
  {
    if at == |input| then Scan([], true)
    else
      var k := Longest(o, input[at..], |input| - at);
      if k == 0 then Scan([], false)
      else
        var rest := Tokenize(o, input, at + k);
        Scan([Span(at, input[at..at + k])] + rest.spans, rest.ok)
  }

  // The end of the last span, or where the scan began.
  function EndOf(begin: nat, cut: seq<Span>): nat {
    if cut == [] then begin else cut[|cut| - 1].start + |cut[|cut| - 1].text|
  }

  // No match at the start of w is longer than k.
  ghost predicate NoneBeyond(o: Oracle, w: seq<Byte>, k: nat) {
    forall j :: k < j <= |w| ==> !o.Accepts(w[..j])
  }

  // A span that starts at `at`, and is the longest match there.
  ghost predicate LongestAt(o: Oracle, input: seq<Byte>, at: nat, s: Span) {
    && s.start == at && 0 < |s.text| <= |input| - at && s.text == input[at..][..|s.text|]
    && o.Accepts(s.text) && NoneBeyond(o, input[at..], |s.text|)
  }

  // Spans end to end, each the longest match where it starts.
  ghost predicate Chain(o: Oracle, input: seq<Byte>, at: nat, spans: seq<Span>)
    decreases |spans|
  {
    at <= |input| &&
    (spans == [] || (LongestAt(o, input, at, spans[0]) && Chain(o, input, at + |spans[0].text|, spans[1..])))
  }

  lemma {:induction false} TokenizeChain(o: Oracle, input: seq<Byte>, at: nat)
    requires at <= |input|
    ensures Chain(o, input, at, Tokenize(o, input, at).spans)
    decreases |input| - at
  {
    hide LongestAt;
    if at < |input| && Longest(o, input[at..], |input| - at) > 0 {
      var n := Longest(o, input[at..], |input| - at);
      TokenizeChain(o, input, at + n);
      LongestSpan(o, input, at);
      ChainCons(o, input, at, Span(at, input[at..at + n]), Tokenize(o, input, at + n).spans);
    }
  }

  lemma {:induction false} TokenizeEnd(o: Oracle, input: seq<Byte>, at: nat)
    requires at <= |input|
    ensures var scan := Tokenize(o, input, at);
            && EndOf(at, scan.spans) <= |input|
            && (scan.ok <==> EndOf(at, scan.spans) == |input|)
            && (!scan.ok ==> NoneBeyond(o, input[EndOf(at, scan.spans)..], 0))
    decreases |input| - at
  {
    hide EndOf, NoneBeyond;
    EndOfNone(at);
    if at < |input| {
      var n := Longest(o, input[at..], |input| - at);
      if n > 0 {
        TokenizeEnd(o, input, at + n);
        EndOfCons(at, Span(at, input[at..at + n]), Tokenize(o, input, at + n).spans);
      } else {
        NoneAtAll(o, input[at..]);
      }
    }
  }

  lemma EndOfNone(at: nat)
    ensures EndOf(at, []) == at
  {
  }

  lemma NoneAtAll(o: Oracle, w: seq<Byte>)
    requires Longest(o, w, |w|) == 0
    ensures NoneBeyond(o, w, 0)
  {
  }

  /** The tokenizer's spans lie end to end, each the longest match where it starts; it stops
      at the end of the input, or fails where nothing non-empty matches. */
  lemma TokenizeIsLongest(o: Oracle, input: seq<Byte>, at: nat)
    requires at <= |input|
    ensures var scan := Tokenize(o, input, at);
            var e := EndOf(at, scan.spans);
            && Chain(o, input, at, scan.spans) && e <= |input|
            && (scan.ok <==> e == |input|) && (!scan.ok ==> NoneBeyond(o, input[e..], 0))
  {
    TokenizeChain(o, input, at);
    TokenizeEnd(o, input, at);
    hide Chain, EndOf, NoneBeyond, Tokenize;
  }

  lemma LongestSpan(o: Oracle, input: seq<Byte>, at: nat)
    requires at < |input| && Longest(o, input[at..], |input| - at) > 0
    ensures LongestAt(o, input, at, Span(at, input[at..at + Longest(o, input[at..], |input| - at)]))
  {
    var n := Longest(o, input[at..], |input| - at);
    assert input[at..][..n] == input[at..at + n];
  }

  lemma ChainCons(o: Oracle, input: seq<Byte>, at: nat, s: Span, rest: seq<Span>)
    requires LongestAt(o, input, at, s) && Chain(o, input, at + |s.text|, rest) && at <= |input|
    ensures Chain(o, input, at, [s] + rest)
  {
    assert ([s] + rest)[1..] == rest;
  }

  lemma EndOfCons(at: nat, s: Span, rest: seq<Span>)
    requires s.start == at
    ensures EndOf(at, [s] + rest) == EndOf(at + |s.text|, rest)
  {
  }

  // What the callback is given: spans with a lexeme, the others are discards.
  datatype Lexeme = Lexeme(text: seq<Byte>, symbols: set<nat>)

  function Posted(o: Oracle, spans: seq<Span>): seq<Lexeme> {
    if spans == [] then []
    else
      var last := spans[|spans| - 1].text;
      Posted(o, spans[..|spans| - 1]) + if o.Found(last) == {} then [] else [Lexeme(last, o.Found(last))]
  }

  // Some terminal below `lexemes` matches the string.
  ghost predicate IsLexeme(o: Oracle, w: seq<Byte>) {
    exists t: nat :: t in o.tokens(w) && t < o.lexemes
  }

  ghost function LexemeSpans(o: Oracle, spans: seq<Span>): set<nat> {
    set k: nat | k < |spans| && IsLexeme(o, spans[k].text)
  }

  // Of the spans that are lexemes, and of no others, the callback is given the text, and just
  // the terminals below `lexemes` that match it, in order.
  ghost predicate Delivers(o: Oracle, spans: seq<Span>, out: seq<Lexeme>) {
    exists picks :: Lists(picks, LexemeSpans(o, spans)) && DeliversAt(o, spans, picks, out)
  }

  ghost predicate DeliversAt(o: Oracle, spans: seq<Span>, picks: seq<nat>, out: seq<Lexeme>) {
    |out| == |picks| && forall j :: 0 <= j < |out| ==> picks[j] < |spans| && IsDelivery(o, spans[picks[j]], out[j])
  }

  ghost predicate IsDelivery(o: Oracle, span: Span, l: Lexeme) {
    l.text == span.text && forall t: nat :: t in l.symbols <==> t in o.tokens(span.text) && t < o.lexemes
  }

  lemma FoundDelivers(o: Oracle, span: Span)
    ensures o.Found(span.text) == {} <==> !IsLexeme(o, span.text)
    ensures IsDelivery(o, span, Lexeme(span.text, o.Found(span.text)))
  {
    var w := span.text;
    assert forall t: nat :: t in o.Found(w) <==> t in o.tokens(w) && t < o.lexemes;
    assert (forall t: nat :: t !in o.Found(w)) ==> o.Found(w) == {};
  }

  lemma LexemeSpansNext(o: Oracle, spans: seq<Span>)
    requires spans != []
    ensures var n: nat := |spans| - 1;
            LexemeSpans(o, spans) == if IsLexeme(o, spans[n].text) then LexemeSpans(o, spans[..n]) + {n} else LexemeSpans(o, spans[..n])
  {
    hide IsLexeme;
  }

  lemma {:induction false} PostedDelivers(o: Oracle, spans: seq<Span>) returns (picks: seq<nat>)
    ensures Lists(picks, LexemeSpans(o, spans)) && DeliversAt(o, spans, picks, Posted(o, spans))
  {
    hide IsLexeme, IsDelivery, Lists, Oracle.Found;
    picks := [];
    if spans != [] {
      var n := |spans| - 1;
      picks := PostedDelivers(o, spans[..n]);
      FoundDelivers(o, spans[n]);
      LexemeSpansNext(o, spans);
      if IsLexeme(o, spans[n].text) {
        ListsNext(picks, LexemeSpans(o, spans[..n]), n);
        picks := picks + [n];
      }
    } else {
      NoPositions(o);
    }
  }

  lemma NoPositions(o: Oracle)
    ensures Lists([], LexemeSpans(o, []))
  {
  }

  lemma PostedAre(o: Oracle, spans: seq<Span>)
    ensures Delivers(o, spans, Posted(o, spans))
  {
    var _ := PostedDelivers(o, spans);
  }

  // A string that cannot be extended hides no longer match.
  lemma NoLonger(o: Oracle, w: seq<Byte>, k: nat)
    requires o.Coherent() && k <= |w| && (k < |w| ==> !o.viable(w[..k + 1]))
    ensures NoneBeyond(o, w, k)
  {
    forall j | k < j <= |w| ensures !o.Accepts(w[..j]) {
      assert w[..j] == w[..k + 1] + w[k + 1..j];
    }
  }

  lemma {:induction false} LongestStable(o: Oracle, w: seq<Byte>, k: nat, n: nat)
    requires k <= n <= |w| && forall j :: k < j <= n ==> !o.Accepts(w[..j])
    ensures Longest(o, w, n) == Longest(o, w, k)
  {
    if k < n {
      LongestStable(o, w, k, n - 1);
    }
  }

  // The spans cut so far are the tokenizer's, up to their end, ...
  ghost predicate Agrees(o: Oracle, input: seq<Byte>, begin: nat, cut: seq<Span>) {
    var e := EndOf(begin, cut);
    && begin <= e <= |input|
    && Tokenize(o, input, begin).spans == cut + Tokenize(o, input, e).spans
    && Tokenize(o, input, begin).ok == Tokenize(o, input, e).ok
  }

  // ... and have been posted.
  ghost predicate Cuts(o: Oracle, input: seq<Byte>, begin: nat, cut: seq<Span>, out: seq<Lexeme>) {
    Agrees(o, input, begin, cut) && out == Posted(o, cut)
  }

  ghost predicate InBytes(input: seq<Byte>) {
    forall i :: 0 <= i < |input| ==> 0 <= input[i] < 256
  }

  datatype Failure = NoFailure | LexerFailure | GateFailure

  class Engine {
    const o: Oracle
    // Input
    var input: seq<Byte>
    var location: int            // the last byte processed
    // Gate
    var acceptable: set<Byte>
    var flushed: nat
    var lastloc: int
    // Lexer
    var recce: Option<seq<Byte>> // the bytes in the recognizer; None when there is none
    var start: int
    var length: int
    var lexeme: seq<Byte>
    // Results
    var out: seq<Lexeme>
    var fail: Failure
    // All spans cut so far, and where lexing began.
    ghost var cut: seq<Span>
    ghost var begin: nat

    // The engine before its first input.
    constructor (o: Oracle)
      ensures this.o == o && recce == Some([]) && lexeme == [] && start == -1 && acceptable == o.Expected([])
      ensures flushed == 0 && fail == NoFailure && out == []
    {
      this.o := o;
      input, location := [], -1;
      flushed, lastloc := 0, -1;
      length, out, fail := -1, [], NoFailure;
      recce, start, lexeme := None, -1, [];
      cut, begin := [], 0;
      acceptable := {};
      new;
      LexerAcceptable();
    }

    // The end of the last span cut.
    ghost function End(): nat
      reads this
    {
      EndOf(begin, cut)
    }

    // The bytes of the match in progress.
    ghost function Pending(): seq<Byte>
      reads this
    {
      if recce.Some? then recce.value else []
    }

    // The input up to loc is the spans cut, then the pending bytes; and the
    // tokenizer agrees with the cuts made.
    ghost predicate SyncedAt(loc: int)
      reads this
    {
      && o.Coherent() && InBytes(input) && Cuts(o, input, begin, cut, out)
      && -1 <= loc < |input| && End() + |Pending()| == loc + 1
      && Pending() == input[End()..loc + 1]
    }

    ghost predicate Synced()
      reads this
    {
      SyncedAt(location)
    }

    ghost predicate Matching()
      reads this
    {
      && recce.Some? && lexeme == recce.value
      && (start == -1 <==> lexeme == []) && (lexeme != [] ==> start == End() && length == |lexeme|)
    }

    ghost predicate Running()
      reads this
    {
      fail == NoFailure && Synced() && Matching() && acceptable == o.Expected(lexeme)
    }

    // At the head of the input loop.
    ghost predicate Ready()
      reads this
    {
      Running() && (flushed > 0 ==> lexeme == [])
    }

    // The pending bytes were cut back to k, the longest match; lexing starts over behind it.
    twostate predicate Advanced(k: nat)
      reads this
    {
      && fail == NoFailure && Synced() && Matching() && lexeme == [] && acceptable == o.Expected([])
      && input == old(input) && begin == old(begin)
      && End() == old(End()) + k && location == End() - 1
    }

    // There was no match at all.
    twostate predicate Mismatched()
      reads this
    {
      && fail == LexerFailure && recce == None
      && input == old(input) && begin == old(begin) && location == old(location)
      && cut == old(cut) && out == old(out)
    }

    method GateAcceptable()
      requires recce.Some?
      modifies this`acceptable
      ensures acceptable == o.Expected(recce.value)
    {
      acceptable := o.Expected(recce.value);
    }

    method GateRedo(n: nat)
      modifies this`flushed, this`location
      ensures location == old(location) - n
      ensures flushed == if n > 0 then 0 else old(flushed)
    {
      if n > 0 {
        flushed := 0;
        location := location - n;
      }
    }

    method LexerAcceptable()
      requires recce == None
      modifies this`recce, this`start, this`lexeme, this`acceptable
      ensures recce == Some([]) && start == -1 && lexeme == [] && acceptable == o.Expected([])
    {
      recce := Some([]);
      start := -1;
      lexeme := [];
      GateAcceptable();
    }

    method MatchBegin()
      modifies this`start, this`length
      ensures start == lastloc && length == 0
    {
      start := lastloc;
      length := 0;
    }

    // Work backwards to the last Earley set with a parse: set k + 1 has one iff the
    // first k bytes match, and set 0 never has.
    method FindMatch() returns (redo: nat)
      requires recce.Some? && lexeme == recce.value && length == |lexeme| && fail == NoFailure
      modifies this`recce, this`lexeme, this`length, this`fail
      ensures var w := old(lexeme);
              var k := Longest(o, w, |w|);
              if !o.Accepts([]) && k == 0 then fail == LexerFailure && recce == None && redo == 0
              else fail == NoFailure && recce == old(recce) && redo == |w| - k && lexeme == w[..k]
    {
      ghost var w := lexeme;
      var latest := 1 + |recce.value|;
      redo := 0;
      while !(latest >= 1 && o.Accepts(recce.value[..latest - 1]))
        invariant 0 <= latest <= 1 + |w| && redo == 1 + |w| - latest
        invariant recce == Some(w) && fail == NoFailure
        invariant lexeme == w[..if latest == 0 then 0 else latest - 1] && length == |lexeme|
        invariant forall j :: latest <= j <= |w| ==> !o.Accepts(w[..j])
        decreases latest
      {
        redo := redo + 1;
        latest := latest - 1;
        if latest < 0 {
          LongestStable(o, w, 0, |w|);
          assert w[..0] == [];
          fail := LexerFailure;
          recce := None;
          return 0;
        }
        if length > 0 {
          length := length - 1;
          lexeme := lexeme[..|lexeme| - 1];
        }
      }
      LongestStable(o, w, latest - 1, |w|);
      assert w[..0] == [];
    }

    method LexComplete() returns (redo: nat)
      requires fail == NoFailure && Synced() && recce.Some? && lexeme == recce.value && length == |lexeme|
      requires End() <= |input| && NoneBeyond(o, input[End()..], |lexeme|)
      modifies this`recce, this`start, this`lexeme, this`length, this`acceptable, this`flushed, this`location,
               this`out, this`cut, this`fail
      ensures var k := old(Longest(o, input[End()..], |input| - End()));
              if k == 0 then Mismatched() && redo == 0
              else Advanced(k) && redo == old(|lexeme|) - k
                   && flushed == if redo > 0 then 0 else old(flushed)
    {
      ghost var w, rest, e := lexeme, input[End()..], End();
      PrefixLongest(o, w, rest);
      CutsBounded(o, input, begin, cut, out);
      assert !o.Accepts([]);
      hide Longest, NoneBeyond, Oracle.Found, Oracle.Accepts, Oracle.Coherent, Cuts, EndOf;
      redo := FindMatch();
      if fail == NoFailure {
        assert lexeme == input[e..e + |lexeme|];
        Commit(redo);
      }
    }

    // The match is the whole lexeme: post it and start over behind it.
    method Commit(redo: nat)
      requires fail == NoFailure && o.Coherent() && InBytes(input) && Cuts(o, input, begin, cut, out) && End() <= |input|
      requires 0 < |lexeme| == Longest(o, input[End()..], |input| - End())
      requires lexeme == input[End()..][..|lexeme|] && location + 1 == End() + |lexeme| + redo
      modifies this`recce, this`start, this`lexeme, this`acceptable, this`flushed, this`location, this`out, this`cut
      ensures Advanced(old(|lexeme|)) && flushed == if redo > 0 then 0 else old(flushed)
    {
      hide Longest, Oracle.Found, Oracle.Accepts, Oracle.Coherent, Cuts, EndOf;
      ghost var e, k := End(), |lexeme|;
      assert lexeme == input[e..e + k];
      CutStep(o, input, begin, cut, out, lexeme);
      Post();
      Restart(redo);
      assert End() == e + k;
      assert input[End()..End()] == [];
    }

    // Rewind over the bytes not used, and wait for the next match.
    method Restart(redo: nat)
      modifies this`recce, this`start, this`lexeme, this`acceptable, this`flushed, this`location
      ensures recce == Some([]) && start == -1 && lexeme == [] && acceptable == o.Expected([])
      ensures location == old(location) - redo && flushed == if redo > 0 then 0 else old(flushed)
    {
      GateRedo(redo);
      recce := None;
      LexerAcceptable();
    }

    // Hand the match to the callback, unless it is a discard.
    method Post()
      modifies this`out, this`cut
      ensures cut == old(cut) + [Span(old(End()), lexeme)]
      ensures out == old(out) + if o.Found(lexeme) == {} then [] else [Lexeme(lexeme, o.Found(lexeme))]
    {
      var found := o.Found(lexeme);
      if found != {} {
        out := out + [Lexeme(lexeme, found)];
      }
      cut := cut + [Span(End(), lexeme)];
    }

    // The run is over: nothing matches behind the spans cut.
    ghost predicate Stuck()
      reads this
    {
      && fail != NoFailure && Cuts(o, input, begin, cut, out)
      && End() < |input| && Longest(o, input[End()..], |input| - End()) == 0
    }

    // A byte or a match further on, or stuck.
    twostate predicate Progressed(e: nat, loc: int)
      reads this
    {
      && input == old(input) && begin == old(begin)
      && (fail == NoFailure ==> Running() && (End() > e || (End() == e && location == loc)))
      && (fail != NoFailure ==> Stuck())
    }

    method LexerEnter(ch: Byte)
      requires fail == NoFailure && Matching() && SyncedAt(location - 1)
      requires 0 <= location < |input| && lastloc == location && ch == input[location] && o.viable(lexeme + [ch])
      modifies this
      ensures Progressed(old(End()), old(location))
    {
      hide Cuts, Oracle.Coherent, Longest;
      ghost var e := End();
      if start == -1 {
        MatchBegin();
      }
      lexeme := lexeme + [ch];
      length := length + 1;
      recce := Some(recce.value + [ch]);
      assert lexeme == input[e..location + 1];
      if o.Exhausted(recce.value) {
        CutsBounded(o, input, begin, cut, out);
        Slice(input, e, |lexeme|);
        ExhaustedMaximal(o, input[e..], lexeme);
        var _ := LexComplete();
      } else {
        GateAcceptable();
      }
    }

    method LexerFlush()
      requires fail == NoFailure && Synced() && Matching() && location < |input| - 1
      requires End() <= |input| && NoneBeyond(o, input[End()..], |lexeme|)
      modifies this
      ensures Progressed(old(End()), old(location)) && (fail == NoFailure ==> End() > old(End()) && lexeme == [])
    {
      hide Cuts, Oracle.Coherent, Longest, NoneBeyond;
      if start == -1 {
        MatchBegin();
      }
      var _ := LexComplete();
    }

    method GateEnter(ch: Byte)
      requires Matching() && fail == NoFailure && acceptable == o.Expected(lexeme) && (flushed > 0 ==> lexeme == [])
      requires 0 <= location < |input| && SyncedAt(location - 1) && ch == input[location]
      modifies this
      ensures Progressed(old(End()), old(location)) && (fail == NoFailure ==> Ready())
    {
      hide Cuts, Oracle.Coherent, Longest, NoneBeyond, InBytes;
      lastloc := location;
      if ch in acceptable {
        LexerEnter(ch);
        flushed := 0;
        return;
      }
      Rejected(ch);
      if flushed > 0 {
        fail := GateFailure;
        return;
      }
      location := location - 1;
      flushed := flushed + 1;
      LexerFlush();
    }

    lemma Rejected(ch: Byte)
      requires Matching() && 0 <= location < |input| && SyncedAt(location - 1) && ch == input[location]
      requires ch !in o.Expected(lexeme)
      ensures End() <= |input| && NoneBeyond(o, input[End()..], |lexeme|)
      ensures lexeme == [] ==> Longest(o, input[End()..], |input| - End()) == 0 && End() < |input|
    {
      var rest := input[End()..];
      assert lexeme + [ch] == rest[..|lexeme| + 1];
      RejectMaximal(o, rest, lexeme, ch);
      if lexeme == [] {
        LongestStable(o, rest, 0, |rest|);
      }
    }

    // At the end of the input: complete what is pending.  A rewind means there is more to do.
    method LexerEof()
      requires Ready() && location == |input| - 1
      modifies this
      ensures input == old(input) && begin == old(begin)
      ensures if fail != NoFailure then Stuck() && location == old(location)
              else if location < |input| - 1 then Ready() && End() > old(End())
              else Cuts(o, input, begin, cut, out) && End() == |input| && location == |input| - 1
    {
      hide Cuts, Oracle.Coherent, Longest;
      if start >= 0 {
        var redo := LexComplete();
        if redo != 0 { return; }
      }
      recce := None;
    }

    method GateEof()
      requires Ready() && location == |input| - 1
      modifies this
      ensures input == old(input) && begin == old(begin)
      ensures if fail != NoFailure then Stuck() && location == old(location)
              else if location < |input| - 1 then Ready() && End() > old(End())
              else Cuts(o, input, begin, cut, out) && End() == |input| && location == |input| - 1
    {
      LexerEof();
    }

    /** The driver loop over one input, starting behind byte `from`. */
    method InboundEnter(bytes: seq<Byte>, from: int)
      requires o.Coherent() && InBytes(bytes) && -1 <= from < |bytes|
      requires recce == Some([]) && lexeme == [] && start == -1 && acceptable == o.Expected([])
      requires flushed == 0 && fail == NoFailure && out == []
      modifies this
      ensures var scan := Tokenize(o, bytes, from + 1);
              (fail == NoFailure <==> scan.ok) && cut == scan.spans && out == Posted(o, scan.spans)
              && Delivers(o, scan.spans, out)
    {
      hide Cuts, Oracle.Coherent, Longest, NoneBeyond, InBytes, Tokenize, Posted, Delivers;
      input := bytes;
      var max := |bytes| - 1;
      location := from;
      cut, begin := [], from + 1;
      CutsStart(o, bytes, begin);
      assert input[begin..from + 1] == [];
      while true
        invariant input == bytes && begin == from + 1 && max == |input| - 1
        invariant Ready()
        decreases |input| - End(), |input| - location
      {
        CutsBounded(o, input, begin, cut, out);
        if location == max {
          GateEof();
          if location == max { break; }
          CutsBounded(o, input, begin, cut, out);
          continue;
        }
        InputStep();
        if fail != NoFailure { break; }
        CutsBounded(o, input, begin, cut, out);
      }
      CutsEnd(o, bytes, begin, cut, out);
      PostedAre(o, cut);
    }

    // The next byte, into the gate.
    method InputStep()
      requires Ready() && location < |input| - 1
      modifies this
      ensures Progressed(old(End()), old(location) + 1) && (fail == NoFailure ==> Ready())
    {
      hide Cuts, Oracle.Coherent, Longest, NoneBeyond, InBytes;
      location := location + 1;
      var ch := input[location];
      GateEnter(ch);
    }
  }

  lemma RejectMaximal(o: Oracle, rest: seq<Byte>, w: seq<Byte>, ch: Byte)
    requires o.Coherent() && w + [ch] <= rest && 0 <= ch < 256 && ch !in o.Expected(w)
    ensures NoneBeyond(o, rest, |w|)
  {
    assert rest[..|w| + 1] == w + [ch];
    NoLonger(o, rest, |w|);
  }

  lemma Slice(input: seq<Byte>, e: nat, n: nat)
    requires e + n <= |input|
    ensures input[e..e + n] == input[e..][..n]
  {
  }

  lemma ExhaustedMaximal(o: Oracle, rest: seq<Byte>, w: seq<Byte>)
    requires o.Coherent() && InBytes(rest) && w <= rest && o.Exhausted(w)
    ensures NoneBeyond(o, rest, |w|)
  {
    if |w| < |rest| {
      assert rest[..|w| + 1] == w + [rest[|w|]];
    }
    NoLonger(o, rest, |w|);
  }

  lemma CutsStart(o: Oracle, input: seq<Byte>, begin: nat)
    requires begin <= |input|
    ensures Cuts(o, input, begin, [], [])
  {
  }

  // Where nothing matches, or nothing is left, the cuts are all there is.
  lemma CutsEnd(o: Oracle, input: seq<Byte>, begin: nat, cut: seq<Span>, out: seq<Lexeme>)
    requires Cuts(o, input, begin, cut, out) && begin <= |input|
    ensures var e := EndOf(begin, cut);
            && e <= |input|
            && (e == |input| ==> Tokenize(o, input, begin) == Scan(cut, true))
            && (e < |input| && Longest(o, input[e..], |input| - e) == 0 ==> Tokenize(o, input, begin) == Scan(cut, false))
            && out == Posted(o, cut)
  {
  }

  lemma CutsBounded(o: Oracle, input: seq<Byte>, begin: nat, cut: seq<Span>, out: seq<Lexeme>)
    requires Cuts(o, input, begin, cut, out)
    ensures begin <= EndOf(begin, cut) <= |input|
  {
  }

  // The longest match of the rest lies within the pending bytes.
  lemma PrefixLongest(o: Oracle, w: seq<Byte>, rest: seq<Byte>)
    requires w <= rest && NoneBeyond(o, rest, |w|)
    ensures Longest(o, rest, |rest|) == Longest(o, w, |w|)
  {
    LongestStable(o, rest, |w|, |rest|);
    SameLongest(o, w, rest, |w|);
  }

  lemma {:induction false} SameLongest(o: Oracle, w: seq<Byte>, rest: seq<Byte>, n: nat)
    requires w <= rest && n <= |w|
    ensures Longest(o, rest, n) == Longest(o, w, n)
  {
    if n > 0 {
      assert rest[..n] == w[..n];
      SameLongest(o, w, rest, n - 1);
    }
  }

  // One more span leaves the tokenizer's answer where it was.
  lemma AgreeStep(o: Oracle, input: seq<Byte>, begin: nat, cut: seq<Span>, k: nat)
    requires Agrees(o, input, begin, cut) && EndOf(begin, cut) <= |input|
    requires 0 < k == Longest(o, input[EndOf(begin, cut)..], |input| - EndOf(begin, cut))
    ensures var e := EndOf(begin, cut);
            e + k <= |input| && Agrees(o, input, begin, cut + [Span(e, input[e..e + k])])
  {
    hide Tokenize, Longest;
    var e := EndOf(begin, cut);
    TokenizeStep(o, input, e);
    Regroup(cut, Span(e, input[e..e + k]), Tokenize(o, input, e + k).spans);
  }

  lemma CutStep(o: Oracle, input: seq<Byte>, begin: nat, cut: seq<Span>, out: seq<Lexeme>, text: seq<Byte>)
    requires Cuts(o, input, begin, cut, out) && EndOf(begin, cut) <= |input|
    requires var e := EndOf(begin, cut);
             var k := Longest(o, input[e..], |input| - e);
             k > 0 && text == input[e..e + k]
    ensures EndOf(begin, cut + [Span(EndOf(begin, cut), text)]) == EndOf(begin, cut) + |text| <= |input|
    ensures Cuts(o, input, begin, cut + [Span(EndOf(begin, cut), text)],
                 out + if o.Found(text) == {} then [] else [Lexeme(text, o.Found(text))])
  {
    hide Posted, Longest, Oracle.Found, Agrees;
    AgreeStep(o, input, begin, cut, |text|);
    PostedStep(o, cut, Span(EndOf(begin, cut), text));
  }

  lemma Regroup(cut: seq<Span>, span: Span, rest: seq<Span>)
    ensures cut + ([span] + rest) == (cut + [span]) + rest
  {
  }

  lemma TokenizeStep(o: Oracle, input: seq<Byte>, e: nat)
    requires e <= |input| && Longest(o, input[e..], |input| - e) > 0
    ensures var k := Longest(o, input[e..], |input| - e);
            && e + k <= |input|
            && Tokenize(o, input, e) ==
               Scan([Span(e, input[e..e + k])] + Tokenize(o, input, e + k).spans, Tokenize(o, input, e + k).ok)
  {
  }

  lemma PostedStep(o: Oracle, cut: seq<Span>, span: Span)
    ensures Posted(o, cut + [span]) ==
            Posted(o, cut) + if o.Found(span.text) == {} then [] else [Lexeme(span.text, o.Found(span.text))]
  {
    assert (cut + [span])[..|cut|] == cut;
  }
}
