/** ffltconf: bridge from the line-oriented config tokenizer ("ltconf")
    to the generic config-reader result codes ("ffconf"). The bridge
    classifies every token, tracks how deeply "{ ... }" objects nest, and
    reports an unmatched "}" at once and an unclosed "{" at the end. */
module LtConf {
  import opened Bytes

  /** Token kinds the tokenizer returns. */
  datatype ReadCode = More | Key | Val | ValNext | Error | Chunk

  /** The outcome of one tokenizer call, which is a procedure outside this
      model: its kind, its text, whether the text was quoted, and the
      tokenizer's line counter afterwards. */
  datatype Token = Token(code: ReadCode, text: seq<byte>, quoted: bool, line: nat)

  /** Result codes of ffltconf_parse (negative error codes of the C
      routine are ECtx and EStr). Token kinds the bridge does not
      classify are passed through. */
  datatype Event = RMore | RKey | RVal | RValNext | RObjOpen | RObjClose
                 | ECtx | EStr | Passed(code: ReadCode)

  const OpenBrace: seq<byte> := [0x7b]
  const CloseBrace: seq<byte> := [0x7d]

  predicate OpensObject(t: Token)
  {
    (t.code == Val || t.code == ValNext) && t.text == OpenBrace && !t.quoted
  }

  predicate ClosesObject(t: Token)
  {
    t.code == Key && t.text == CloseBrace && !t.quoted
  }

  /** One classification step: the event for token t and the nesting
      depth after it, starting from depth ctxs. */
  function Classify(ctxs: nat, t: Token): (r: (Event, nat))
    ensures r.0 == RObjOpen <==> OpensObject(t)
    ensures r.0 == RObjClose <==> ClosesObject(t) && ctxs > 0
    ensures r.0 == ECtx <==> ClosesObject(t) && ctxs == 0
    ensures r.0 == EStr <==> t.code == Error
    ensures t.code == More ==> r == (RMore, ctxs)
    ensures t.code == Key && !ClosesObject(t) ==> r == (RKey, ctxs)
    ensures t.code == Val && !OpensObject(t) ==> r == (RVal, ctxs)
    ensures t.code == ValNext && !OpensObject(t) ==> r == (RValNext, ctxs)
    ensures t.code == Chunk ==> r == (Passed(Chunk), ctxs)
    ensures r.1 == if r.0 == RObjOpen then ctxs + 1 else if r.0 == RObjClose then ctxs - 1 else ctxs
  {
    match t.code
    case More => (RMore, ctxs)
    case Key =>
      if ClosesObject(t) then (if ctxs == 0 then (ECtx, ctxs) else (RObjClose, ctxs - 1))
      else (RKey, ctxs)
    case Val => if OpensObject(t) then (RObjOpen, ctxs + 1) else (RVal, ctxs)
    case ValNext => if OpensObject(t) then (RObjOpen, ctxs + 1) else (RValNext, ctxs)
    case Error => (EStr, ctxs)
    case Chunk => (Passed(Chunk), ctxs)
  }

  class Reader {
    /** Current object nesting depth. */
    var ctxs: nat
    /** Line of the last token. */
    var line: nat
    /** Text of the last token. */
    var val: seq<byte>

    /** ffltconf_init: everything zeroed. */
    constructor ()
      ensures ctxs == 0 && line == 0 && val == []
    {
      ctxs, line, val := 0, 0, [];
    }

    /** ffltconf_parse: hand the next token to the bridge. The token text
        and line are recorded before classification, also when the result
        is an error. */
    method Parse(t: Token) returns (r: Event)
      modifies this
      ensures (r, ctxs) == Classify(old(ctxs), t)
      ensures val == t.text && line == t.line
    {
      val := t.text;
      line := t.line;
      match t.code {
        case More =>
          r := RMore;
        case Key =>
          r := RKey;
          if val == CloseBrace && !t.quoted {
            if ctxs == 0 {
              return ECtx;
            }
            ctxs := ctxs - 1;
            r := RObjClose;
          }
        case Val =>
          r := RVal;
          if val == OpenBrace && !t.quoted {
            ctxs := ctxs + 1;
            r := RObjOpen;
          }
        case ValNext =>
          r := RValNext;
          if val == OpenBrace && !t.quoted {
            ctxs := ctxs + 1;
            r := RObjOpen;
          }
        case Error =>
          r := EStr;
        case Chunk =>
          r := Passed(Chunk);
      }
    }

    /** ffltconf_parse3: as Parse, also handing out the token text. */
    method Parse3(t: Token) returns (r: Event, output: seq<byte>)
      modifies this
      ensures (r, ctxs) == Classify(old(ctxs), t)
      ensures output == t.text && val == t.text && line == t.line
    {
      r := Parse(t);
      output := val;
    }

    /** ffltconf_fin: 0 when every object was closed, ECtx otherwise. */
    method Fin() returns (r: Option<Event>)
      ensures r == None <==> ctxs == 0
      ensures r.Some? ==> r.value == ECtx
    {
      if ctxs != 0 {
        return Some(ECtx);
      }
      return None;
    }
  }

  /** Events and final depth of a run of the bridge over a token stream
      from depth ctxs. */
  function Run(ctxs: nat, ts: seq<Token>): (r: (seq<Event>, nat))
    ensures |r.0| == |ts|
    decreases |ts|
  {
    if ts == [] then ([], ctxs)
    else
      var (e, d) := Classify(ctxs, ts[0]);
      var (es, d2) := Run(d, ts[1..]);
      ([e] + es, d2)
  }

  function CountEvent(es: seq<Event>, e: Event): nat
  {
    if es == [] then 0 else (if es[0] == e then 1 else 0) + CountEvent(es[1..], e)
  }

  /** The nesting depth is always the number of objects opened minus the
      number closed, so it never goes below zero and a "}" arriving at
      depth zero is reported instead of being counted. */
  lemma {:induction false} RunDepth(ctxs: nat, ts: seq<Token>)
    ensures Run(ctxs, ts).1 + CountEvent(Run(ctxs, ts).0, RObjClose)
            == ctxs + CountEvent(Run(ctxs, ts).0, RObjOpen)
    decreases |ts|
  {
    if ts != [] {
      var (e, d) := Classify(ctxs, ts[0]);
      RunDepth(d, ts[1..]);
      var es := Run(ctxs, ts).0;
      assert es[1..] == Run(d, ts[1..]).0;
    }
  }

  /** Starting from a fresh reader, the end check succeeds exactly when
      every object opened in the stream was also closed. */
  lemma BalancedIffFinOk(ts: seq<Token>)
    ensures Run(0, ts).1 == 0 <==> CountEvent(Run(0, ts).0, RObjOpen) == CountEvent(Run(0, ts).0, RObjClose)
  {
    RunDepth(0, ts);
  }

  /** A quoted brace is ordinary text and never changes the depth. */
  lemma QuotedBraceIsText(ctxs: nat, t: Token)
    requires t.quoted
    ensures Classify(ctxs, t).1 == ctxs
    ensures Classify(ctxs, t).0 != RObjOpen && Classify(ctxs, t).0 != RObjClose
  {
  }

  /** "obj {" then "}" on a fresh reader: an object opened and closed,
      and the end check passes. */
  method OpenCloseScenario() returns (fin: Option<Event>)
    ensures fin == None
  {
    var c := new Reader();
    var r1 := c.Parse(Token(Key, [0x6f, 0x62, 0x6a], false, 0));
    var r2 := c.Parse(Token(Val, OpenBrace, false, 0));
    var r3 := c.Parse(Token(Key, CloseBrace, false, 1));
    assert r1 == RKey && r2 == RObjOpen && r3 == RObjClose;
    fin := c.Fin();
  }
}
