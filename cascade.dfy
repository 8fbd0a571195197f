/** The reply cascade of the chat route: groq, then gemini, then openai; the first
    non-empty stripped text wins, otherwise a fixed apology is returned. */
module Cascade {

  datatype Provider = Groq | Gemini | OpenAI

  /** What one provider's completion call does on this request. */
  datatype Outcome =
    | NotConfigured         // its client is None: no key, or construction failed at startup
    | Raises                // the call (or reading its text) raises; the error is logged
    | Returns(text: string) // the call returns this text, before stripping

  const Fallback: string := "Bubu, signal weak hai... contact Jeet \U{1F43B}\U{1F496}"

  /** The characters Python's `str.strip()` removes (those for which `str.isspace()` holds). */
  predicate IsSpace(c: char) {
    || ('\t' <= c <= '\r')                // tab, line feed, vertical tab, form feed, carriage return
    || ('\U{1C}' <= c <= ' ')             // the four separators U+001C..U+001F, and the space
    || c == '\U{85}' || c == '\U{A0}'      // next line, no-break space
    || c == '\U{1680}'                    // ogham space mark
    || ('\U{2000}' <= c <= '\U{200A}')    // en quad .. hair space
    || c == '\U{2028}' || c == '\U{2029}'  // line and paragraph separators
    || c == '\U{202F}' || c == '\U{205F}' || c == '\U{3000}'
  }

  predicate AllSpace(s: string) {
    forall i :: 0 <= i < |s| ==> IsSpace(s[i])
  }

  /** `s.lstrip()`: the suffix left once the leading whitespace is dropped. */
  function StripLeft(s: string): (r: string)
    ensures |r| <= |s| && r == s[|s| - |r|..]
    ensures r == [] || !IsSpace(r[0])
  {
    if s != [] && IsSpace(s[0]) then StripLeft(s[1..]) else s
  }

  /** What `lstrip` drops is whitespace. */
  lemma {:induction false} StripLeftDropsSpace(s: string)
    ensures AllSpace(s[..|s| - |StripLeft(s)|])
  {
    if s != [] && IsSpace(s[0]) {
      var r := StripLeft(s[1..]);
      StripLeftDropsSpace(s[1..]);
      assert s[..|s| - |r|] == [s[0]] + s[1..][..|s| - 1 - |r|];
    }
  }

  /** `s.rstrip()`: the prefix left once the trailing whitespace is dropped. */
  function StripRight(s: string): (r: string)
    ensures |r| <= |s| && r == s[..|r|]
    ensures r == [] || !IsSpace(r[|r| - 1])
  {
    if s != [] && IsSpace(s[|s| - 1]) then StripRight(s[..|s| - 1]) else s
  }

  /** What `rstrip` drops is whitespace. */
  lemma {:induction false} StripRightDropsSpace(s: string)
    ensures AllSpace(s[|StripRight(s)|..])
  {
    if s != [] && IsSpace(s[|s| - 1]) {
      var r := StripRight(s[..|s| - 1]);
      StripRightDropsSpace(s[..|s| - 1]);
      assert s[|r|..] == s[..|s| - 1][|r|..] + [s[|s| - 1]];
    }
  }

  /** `s.strip()`: whitespace dropped from both ends. */
  function Strip(s: string): (r: string)
    ensures |r| <= |s|
    ensures r == [] || (!IsSpace(r[0]) && !IsSpace(r[|r| - 1]))
  {
    StripRight(StripLeft(s))
  }

  /** The stripped text is the slice `s[i..j]` whose outside is all whitespace. */
  lemma StripIsTrimmedSlice(s: string)
    ensures exists i, j :: 0 <= i <= j <= |s| && Strip(s) == s[i..j] && AllSpace(s[..i]) && AllSpace(s[j..])
  {
    var left := StripLeft(s);
    var r := StripRight(left);
    StripLeftDropsSpace(s);
    StripRightDropsSpace(left);
    var i := |s| - |left|;
    assert r == s[i..i + |r|];
    assert s[i + |r|..] == left[|r|..];
  }

  /** Stripping leaves nothing exactly when the text is all whitespace. */
  lemma StripEmptyIffAllSpace(s: string)
    ensures Strip(s) == [] <==> AllSpace(s)
  {
    var r := Strip(s);
    StripIsTrimmedSlice(s);
    var i, j :| 0 <= i <= j <= |s| && r == s[i..j] && AllSpace(s[..i]) && AllSpace(s[j..]);
    if r == [] {
      forall k | 0 <= k < |s| ensures IsSpace(s[k]) {
        if k < i { assert s[k] == s[..i][k]; } else { assert s[k] == s[j..][k - j]; }
      }
    }
  }

  /** A provider outcome that ends the cascade. */
  predicate Usable(o: Outcome) {
    o.Returns? && Strip(o.text) != []
  }

  /** The reply the cascade settles on, for outcomes listed in provider order. */
  function Answer(outs: seq<Outcome>): (r: string)
    ensures r != []
  {
    if outs == [] then Fallback
    else if Usable(outs[0]) then Strip(outs[0].text)
    else Answer(outs[1..])
  }

  /** The providers whose completion call is made, in order. */
  function Called(ps: seq<Provider>, outs: seq<Outcome>): (r: seq<Provider>)
    requires |ps| == |outs|
    ensures |r| <= |ps|
    ensures forall p :: p in r ==> p in ps
  {
    if outs == [] then []
    else
      (if outs[0].NotConfigured? then [] else [ps[0]])
      + (if Usable(outs[0]) then [] else Called(ps[1..], outs[1..]))
  }

  /** No provider occurs twice. */
  predicate NoRepeats(ps: seq<Provider>) {
    forall i, j :: 0 <= i < j < |ps| ==> ps[i] != ps[j]
  }

  /** A provider that is not in a list without repeats can go in front of it. */
  lemma ConsNoRepeats(p: Provider, rest: seq<Provider>)
    requires p !in rest && NoRepeats(rest)
    ensures NoRepeats([p] + rest)
  {
    var r := [p] + rest;
    forall i, j | 0 <= i < j < |r| ensures r[i] != r[j] {
      assert r[j] == rest[j - 1];
      if i > 0 { assert r[i] == rest[i - 1]; }
    }
  }

  /** Each provider of the cascade is called at most once. */
  lemma {:induction false} CalledDistinct(ps: seq<Provider>, outs: seq<Outcome>)
    requires |ps| == |outs| && NoRepeats(ps)
    ensures NoRepeats(Called(ps, outs))
  {
    if outs != [] {
      var rest := if Usable(outs[0]) then [] else Called(ps[1..], outs[1..]);
      if !Usable(outs[0]) {
        CalledDistinct(ps[1..], outs[1..]);
      }
      if outs[0].NotConfigured? {
        assert Called(ps, outs) == rest;
      } else {
        assert ps[0] !in ps[1..] by {
          forall k | 0 <= k < |ps[1..]| ensures ps[1..][k] != ps[0] {
            assert ps[1..][k] == ps[k + 1];
          }
        }
        ConsNoRepeats(ps[0], rest);
      }
    }
  }

  /** The index of the winning provider, if one wins. */
  predicate WinsAt(outs: seq<Outcome>, i: int) {
    0 <= i < |outs| && Usable(outs[i]) && forall j :: 0 <= j < i ==> !Usable(outs[j])
  }

  /** The reply is the stripped text of the first usable outcome, or the fallback when
      there is none; either way it is never empty. */
  lemma {:induction false} AnswerIsFirstUsable(outs: seq<Outcome>)
    ensures forall i :: WinsAt(outs, i) ==> Answer(outs) == Strip(outs[i].text)
    ensures (forall i :: 0 <= i < |outs| ==> !Usable(outs[i])) ==> Answer(outs) == Fallback
    ensures Answer(outs) != []
  {
    if outs != [] {
      AnswerIsFirstUsable(outs[1..]);
      forall i | WinsAt(outs, i) ensures Answer(outs) == Strip(outs[i].text) {
        if i > 0 {
          assert WinsAt(outs[1..], i - 1) by {
            forall j | 0 <= j < i - 1 ensures !Usable(outs[1..][j]) {
              assert outs[1..][j] == outs[j + 1];
            }
          }
        }
      }
      if forall i :: 0 <= i < |outs| ==> !Usable(outs[i]) {
        assert forall i :: 0 <= i < |outs| - 1 ==> outs[1..][i] == outs[i + 1];
      }
    }
  }

  lemma WinsAtTail(outs: seq<Outcome>, i: int)
    requires WinsAt(outs, i) && i > 0
    ensures WinsAt(outs[1..], i - 1)
  {
    forall j | 0 <= j < i - 1 ensures !Usable(outs[1..][j]) {
      assert outs[1..][j] == outs[j + 1];
    }
  }

  /** The winner and every configured provider before it are called. */
  lemma {:induction false} CalledUpToWinner(ps: seq<Provider>, outs: seq<Outcome>, i: int)
    requires |ps| == |outs| && WinsAt(outs, i)
    ensures forall j :: 0 <= j <= i && !outs[j].NotConfigured? ==> ps[j] in Called(ps, outs)
  {
    var head := if outs[0].NotConfigured? then [] else [ps[0]];
    if i == 0 {
      assert Called(ps, outs) == head;
    } else {
      var rest := Called(ps[1..], outs[1..]);
      assert Called(ps, outs) == head + rest;
      WinsAtTail(outs, i);
      CalledUpToWinner(ps[1..], outs[1..], i - 1);
      forall j | 0 < j <= i && !outs[j].NotConfigured? ensures ps[j] in rest {
        assert ps[1..][j - 1] == ps[j] && outs[1..][j - 1] == outs[j];
      }
    }
  }

  /** No provider after the winner is called. */
  lemma {:induction false} CalledStopsAtWinner(ps: seq<Provider>, outs: seq<Outcome>, i: int)
    requires |ps| == |outs| && WinsAt(outs, i)
    ensures forall p :: p in Called(ps, outs) ==> p in ps[..i + 1]
  {
    if i > 0 {
      WinsAtTail(outs, i);
      CalledStopsAtWinner(ps[1..], outs[1..], i - 1);
      assert ps[1..][..i] == ps[1..i + 1];
      forall p | p in Called(ps, outs) ensures p in ps[..i + 1] {
        if p != ps[0] {
          assert p in Called(ps[1..], outs[1..]);
        }
      }
    }
  }

  /** When no provider wins, every configured provider is tried before the fallback. */
  lemma {:induction false} CalledAllWhenNoWinner(ps: seq<Provider>, outs: seq<Outcome>)
    requires |ps| == |outs|
    requires forall j :: 0 <= j < |outs| ==> !Usable(outs[j])
    ensures forall j :: 0 <= j < |outs| && !outs[j].NotConfigured? ==> ps[j] in Called(ps, outs)
  {
    if outs != [] {
      var head := if outs[0].NotConfigured? then [] else [ps[0]];
      var rest := Called(ps[1..], outs[1..]);
      assert Called(ps, outs) == head + rest;
      forall j | 0 <= j < |outs| - 1 ensures !Usable(outs[1..][j]) {
        assert outs[1..][j] == outs[j + 1];
      }
      CalledAllWhenNoWinner(ps[1..], outs[1..]);
      forall j | 0 < j < |outs| && !outs[j].NotConfigured? ensures ps[j] in rest {
        assert ps[1..][j - 1] == ps[j] && outs[1..][j - 1] == outs[j];
      }
    }
  }

  /** A provider whose client is missing is never called. */
  lemma {:induction false} SkipsUnconfigured(ps: seq<Provider>, outs: seq<Outcome>, j: nat)
    requires |ps| == |outs| && j < |outs| && NoRepeats(ps)
    requires outs[j].NotConfigured?
    ensures ps[j] !in Called(ps, outs)
  {
    var head := if outs[0].NotConfigured? then [] else [ps[0]];
    var rest := if Usable(outs[0]) then [] else Called(ps[1..], outs[1..]);
    assert Called(ps, outs) == head + rest;
    if j == 0 {
      assert ps[0] !in ps[1..] by {
        forall k | 0 <= k < |ps[1..]| ensures ps[1..][k] != ps[0] {
          assert ps[1..][k] == ps[k + 1];
        }
      }
    } else {
      assert ps[0] != ps[j];
      if !Usable(outs[0]) {
        assert NoRepeats(ps[1..]) by {
          forall a, b | 0 <= a < b < |ps[1..]| ensures ps[1..][a] != ps[1..][b] {
            assert ps[1..][a] == ps[a + 1] && ps[1..][b] == ps[b + 1];
          }
        }
        assert ps[1..][j - 1] == ps[j] && outs[1..][j - 1] == outs[j];
        SkipsUnconfigured(ps[1..], outs[1..], j - 1);
      }
    }
  }

  /** `reply` after one step of the cascade: a provider is tried only while `reply` is
      falsy, and a call that raises leaves it falsy. */
  function StepReply(reply: string, o: Outcome): string {
    if reply != "" then reply else if o.Returns? then Strip(o.text) else ""
  }

  /** The providers called after one step of the cascade. */
  function StepCalled(called: seq<Provider>, reply: string, o: Outcome, p: Provider): seq<Provider> {
    if reply != "" || o.NotConfigured? then called else called + [p]
  }

  /** The cascade after its first `k` steps: either it has settled on the answer and made
      all of its calls, or nothing usable came yet and the rest decides. */
  ghost predicate Stage(ps: seq<Provider>, outs: seq<Outcome>, k: nat, reply: string, called: seq<Provider>)
    requires |ps| == |outs| && k <= |outs|
  {
    if reply != "" then reply == Answer(outs) && called == Called(ps, outs)
    else Answer(outs) == Answer(outs[k..]) && Called(ps, outs) == called + Called(ps[k..], outs[k..])
  }

  lemma AnswerCons(o: Outcome, rest: seq<Outcome>)
    ensures Answer([o] + rest) == if Usable(o) then Strip(o.text) else Answer(rest)
  {
    assert ([o] + rest)[1..] == rest;
  }

  lemma CalledCons(p: Provider, ps: seq<Provider>, o: Outcome, outs: seq<Outcome>)
    requires |ps| == |outs|
    ensures Called([p] + ps, [o] + outs) ==
      (if o.NotConfigured? then [] else [p]) + (if Usable(o) then [] else Called(ps, outs))
  {
    assert ([p] + ps)[1..] == ps && ([o] + outs)[1..] == outs;
  }

  /** Concatenation regroups; a separate lemma keeps this step out of `StageStep`'s context. */
  lemma ConcatAssoc(a: seq<Provider>, b: seq<Provider>, c: seq<Provider>)
    ensures a + b + c == a + (b + c)
  {
  }

  lemma StageStep(ps: seq<Provider>, outs: seq<Outcome>, k: nat, reply: string, called: seq<Provider>)
    requires |ps| == |outs| && k < |outs| && Stage(ps, outs, k, reply, called)
    ensures Stage(ps, outs, k + 1, StepReply(reply, outs[k]), StepCalled(called, reply, outs[k], ps[k]))
  {
    if reply == "" {
      var o, p := outs[k], ps[k];
      assert outs[k..] == [o] + outs[k + 1..] && ps[k..] == [p] + ps[k + 1..];
      AnswerCons(o, outs[k + 1..]);
      CalledCons(p, ps[k + 1..], o, outs[k + 1..]);
      var head := if o.NotConfigured? then [] else [p];
      assert StepCalled(called, reply, o, p) == called + head;
      if Usable(o) {
        assert StepReply(reply, o) == Strip(o.text) != "";
      } else {
        assert StepReply(reply, o) == "";
        var rest := Called(ps[k + 1..], outs[k + 1..]);
        ConcatAssoc(called, head, rest);
      }
    }
  }

  /** Once every provider has had its step, the cascade has its answer and its calls. */
  lemma StageDone(ps: seq<Provider>, outs: seq<Outcome>, reply: string, called: seq<Provider>)
    requires |ps| == |outs| && Stage(ps, outs, |outs|, reply, called)
    ensures (if reply == "" then Fallback else reply) == Answer(outs)
    ensures called == Called(ps, outs)
  {
    assert ps[|outs|..] == [] && outs[|outs|..] == [];
  }

  /** Three steps over any three providers settle on `Answer` and `Called`. */
  lemma StagesOfThree(ps: seq<Provider>, outs: seq<Outcome>)
    requires |ps| == |outs| == 3
    ensures
      var r1, c1 := StepReply("", outs[0]), StepCalled([], "", outs[0], ps[0]);
      var r2, c2 := StepReply(r1, outs[1]), StepCalled(c1, r1, outs[1], ps[1]);
      var r3, c3 := StepReply(r2, outs[2]), StepCalled(c2, r2, outs[2], ps[2]);
      && (if r3 == "" then Fallback else r3) == Answer(outs)
      && c3 == Called(ps, outs)
  {
    assert ps[0..] == ps && outs[0..] == outs;
    var r1, c1 := StepReply("", outs[0]), StepCalled([], "", outs[0], ps[0]);
    StageStep(ps, outs, 0, "", []);
    var r2, c2 := StepReply(r1, outs[1]), StepCalled(c1, r1, outs[1], ps[1]);
    StageStep(ps, outs, 1, r1, c1);
    StageStep(ps, outs, 2, r2, c2);
    StageDone(ps, outs, StepReply(r2, outs[2]), StepCalled(c2, r2, outs[2], ps[2]));
  }

  /** The three steps of the cascade, composed, settle on `Answer` and make exactly the
      calls `Called` lists. */
  lemma ThreeSteps(groq: Outcome, gemini: Outcome, openai: Outcome)
    ensures
      var r1, c1 := StepReply("", groq), StepCalled([], "", groq, Groq);
      var r2, c2 := StepReply(r1, gemini), StepCalled(c1, r1, gemini, Gemini);
      var r3, c3 := StepReply(r2, openai), StepCalled(c2, r2, openai, OpenAI);
      && (if r3 == "" then Fallback else r3) == Answer([groq, gemini, openai])
      && c3 == Called([Groq, Gemini, OpenAI], [groq, gemini, openai])
  {
    StagesOfThree([Groq, Gemini, OpenAI], [groq, gemini, openai]);
  }

  /** One step of the cascade: the provider is tried only while `reply` is falsy and its
      client is configured; a call that raises leaves `reply` as it was. */
  method Attempt(reply: string, called: seq<Provider>, o: Outcome, p: Provider)
    returns (reply': string, called': seq<Provider>)
    ensures reply' == StepReply(reply, o) && called' == StepCalled(called, reply, o, p)
  {
    reply', called' := reply, called;
    if reply == "" && !o.NotConfigured? {
      called' := called + [p];
      if o.Returns? { reply' := Strip(o.text); }
    }
  }

  /** The chat route's cascade as written: `reply` starts out falsy and each configured
      provider is tried while it stays falsy (None or the empty string). */
  method Generate(groq: Outcome, gemini: Outcome, openai: Outcome) returns (reply: string, called: seq<Provider>)
    ensures reply == Answer([groq, gemini, openai])
    ensures called == Called([Groq, Gemini, OpenAI], [groq, gemini, openai])
    ensures NoRepeats(called)
  {
    CalledDistinct([Groq, Gemini, OpenAI], [groq, gemini, openai]);
    reply, called := Attempt("", [], groq, Groq);
    reply, called := Attempt(reply, called, gemini, Gemini);
    reply, called := Attempt(reply, called, openai, OpenAI);
    ThreeSteps(groq, gemini, openai);
    if reply == "" { reply := Fallback; }
  }
}
