/** The recursive-descent parser of bf.py: `CodeBlockNode.parse`. */
module Parser {
  import opened Bytes
  import opened Syntax
  import opened Tokens

  /** What one call of the parser yields: the block it built, the tokens it
      left unread on the stack, and whether it stopped at a `]` (`closed`)
      rather than at the end of the input; or the SyntaxError it raised. */
  datatype Parsed = Ok(block: Block, rest: seq<byte>, closed: bool) | SyntaxError

  /** The result of the imperative parser, which hands back only the block. */
  datatype ParseResult = Parsed(block: Block) | Failed

  /** Puts `cs` in front of the children of a successful parse. */
  function Prepend(cs: seq<Node>, r: Parsed): Parsed {
    match r
    case Ok(b, rest, closed) => Ok(Block(cs + b.children), rest, closed)
    case SyntaxError => SyntaxError
  }

  /** Prepending `a + c` is prepending `c`, then `a`. */
  lemma PrependTwice(a: seq<Node>, c: seq<Node>, r: Parsed)
    ensures Prepend(a + c, r) == Prepend(a, Prepend(c, r))
  {
    if r.Ok? {
      assert a + c + r.block.children == a + (c + r.block.children);
    }
  }

  /** The parse of one block from the token sequence `s`. */
  function ParseBlock(s: seq<byte>): (r: Parsed)
    ensures r.Ok? ==> |r.rest| <= |s|
    ensures r.Ok? && !r.closed ==> r.rest == []
    decreases |s|
  {
    if s == [] then Ok(Block([]), [], false)
    else if s[0] == CloseToken then Ok(Block([]), s[1..], true)
    else if s[0] == OpenToken then
      match ParseBlock(s[1..])
      case SyntaxError => SyntaxError
      case Ok(inner, rest, _) => Prepend([While(inner)], ParseBlock(rest))
    else if IsLeafToken(s[0]) then Prepend([LeafOf(s[0])], ParseBlock(s[1..]))
    else SyntaxError
  }

  /** The tokens a parse leaves unread are a suffix of its input, and a
      parse that stopped at `]` stopped right after a `]` byte. */
  lemma {:induction false} ParseRest(s: seq<byte>)
    requires ParseBlock(s).Ok?
    ensures ParseBlock(s).rest == s[|s| - |ParseBlock(s).rest|..]
    ensures ParseBlock(s).closed ==>
      |ParseBlock(s).rest| < |s| && s[|s| - |ParseBlock(s).rest| - 1] == CloseToken
    decreases |s|
  {
    if s != [] && s[0] != CloseToken {
      if s[0] == OpenToken {
        ParseRest(s[1..]);
        ParseRest(ParseBlock(s[1..]).rest);
      } else {
        ParseRest(s[1..]);
      }
    }
  }

  /** `CodeBlockNode.parse`: consumes tokens from the shared stack until the
      input ends or a `]` is read, recursing on `[`. */
  method Parse(stack: SourceCodeStack) returns (r: ParseResult)
    modifies stack
    decreases |stack.Remaining()|
    ensures match ParseBlock(old(stack.Remaining()))
      case Ok(b, rest, _) => r == Parsed(b) && stack.Remaining() == rest
      case SyntaxError => r == Failed
  {
    ghost var s0 := stack.Remaining();
    var children: seq<Node> := [];
    var more := stack.HasTokens();
    while more
      invariant more <==> stack.Remaining() != []
      invariant |stack.Remaining()| <= |s0|
      invariant Prepend(children, ParseBlock(stack.Remaining())) == ParseBlock(s0)
      decreases |stack.Remaining()|
    {
      ghost var before := stack.Remaining();
      var token := stack.ReadNextToken();
      var node: Node;
      if token == DotToken {
        node := Print;
      } else if token == PlusToken {
        node := Plus;
      } else if token == MinusToken {
        node := Minus;
      } else if token == ForwardToken {
        node := Forward;
      } else if token == BackwardToken {
        node := Backward;
      } else if token == OpenToken {
        var inner := Parse(stack);
        if inner.Failed? {
          return Failed;
        }
        node := While(inner.block);
      } else if token == CloseToken {
        break;
      } else {
        return Failed;
      }
      assert ParseBlock(before) == Prepend([node], ParseBlock(stack.Remaining()));
      PrependTwice(children, [node], ParseBlock(stack.Remaining()));
      children := children + [node];
      more := stack.HasTokens();
    }
    r := Parsed(Block(children));
  }

  /** A text of leaf tokens only parses to one leaf per byte, in order, and
      consumes the whole input. */
  lemma {:induction false} ParseLeaves(s: seq<byte>)
    requires forall i :: 0 <= i < |s| ==> IsLeafToken(s[i])
    ensures ParseBlock(s).Ok? && ParseBlock(s).rest == [] && !ParseBlock(s).closed
    ensures |ParseBlock(s).block.children| == |s|
    ensures forall i :: 0 <= i < |s| ==> ParseBlock(s).block.children[i] == LeafOf(s[i])
  {
    if s != [] {
      ParseLeaves(s[1..]);
    }
  }

  /** A foreign byte that the top-level parse reaches makes it fail: `p`
      parses up to its end without a `]` ending the block, then comes `x`. */
  lemma {:induction false} ParseForeignAfter(p: seq<byte>, x: byte, q: seq<byte>)
    requires ParseBlock(p).Ok? && !ParseBlock(p).closed && !IsInstructionToken(x)
    ensures ParseBlock(p + [x] + q) == SyntaxError
    decreases |p|
  {
    var s := p + [x] + q;
    if p == [] {
      assert s[0] == x;
    } else {
      assert s[0] == p[0] && s[1..] == p[1..] + [x] + q;
      if p[0] == OpenToken {
        var inner := ParseBlock(p[1..]);
        if inner.closed {
          ParseExtend(p[1..], [x] + q);
          assert p[1..] + ([x] + q) == s[1..];
          ParseForeignAfter(inner.rest, x, q);
          assert inner.rest + [x] + q == inner.rest + ([x] + q);
        } else {
          ParseForeignAfter(p[1..], x, q);
        }
      } else if IsLeafToken(p[0]) {
        ParseForeignAfter(p[1..], x, q);
      }
    }
  }

  /** A byte outside `.+-<>[]` (`,` among them) at position `k` makes the
      parse fail when the bytes before it parse without a `]` ending the
      top-level block, as in `[-],`. */
  lemma ParseForeign(s: seq<byte>, k: nat)
    requires k < |s| && !IsInstructionToken(s[k])
    requires ParseBlock(s[..k]).Ok? && !ParseBlock(s[..k]).closed
    ensures ParseBlock(s) == SyntaxError
  {
    ParseForeignAfter(s[..k], s[k], s[k + 1..]);
    assert s[..k] + [s[k]] + s[k + 1..] == s;
  }

  /** Input made only of `.+-<>[]` always parses. */
  lemma {:induction false} ParseTotal(s: seq<byte>)
    requires forall i :: 0 <= i < |s| ==> IsInstructionToken(s[i])
    ensures ParseBlock(s).Ok?
    decreases |s|
  {
    if s != [] && s[0] != CloseToken {
      ParseTotal(s[1..]);
      if s[0] == OpenToken {
        var rest := ParseBlock(s[1..]).rest;
        ParseRest(s[1..]);
        forall i | 0 <= i < |rest|
          ensures IsInstructionToken(rest[i])
        {
          assert rest[i] == s[|s| - |rest| + i];
        }
        ParseTotal(rest);
      }
    }
  }

  /** A parse that stopped at `]` parses the same from the bytes it read
      alone: what came after the `]` played no part. */
  lemma {:induction false} ParseTruncate(t: seq<byte>, body: Block, rest: seq<byte>)
    requires ParseBlock(t) == Ok(body, rest, true)
    ensures |rest| < |t| && rest == t[|t| - |rest|..]
    ensures ParseBlock(t[..|t| - |rest|]) == Ok(body, [], true)
    decreases |t|, 1
  {
    if t[0] == CloseToken {
      assert t[..|t| - |rest|] == [CloseToken] + [];
      ParseCloseStep([]);
    } else if t[0] == OpenToken {
      ParseTruncateOpen(t, body, rest);
    } else {
      var tail := ParseBlock(t[1..]);
      ParseLeafStep(t);
      ParseTruncate(t[1..], tail.block, rest);
      var a := t[1..][..|t[1..]| - |rest|];
      PrefixOfSplit(t[1..], a, rest);
      ParseTruncateLeaf(t, a, rest, tail.block);
    }
  }

  /** The `[` case of `ParseTruncate`. */
  lemma {:induction false} ParseTruncateOpen(t: seq<byte>, body: Block, rest: seq<byte>)
    requires t != [] && t[0] == OpenToken && ParseBlock(t) == Ok(body, rest, true)
    ensures |rest| < |t| && rest == t[|t| - |rest|..]
    ensures ParseBlock(t[..|t| - |rest|]) == Ok(body, [], true)
    decreases |t|, 0
  {
    var inner := ParseBlock(t[1..]);
    ParseOpenStep(t);
    assert inner.closed;
    var after := ParseBlock(inner.rest);
    assert after.rest == rest;
    assert body == Block([While(inner.block)] + after.block.children);
    ParseTruncate(t[1..], inner.block, inner.rest);
    ParseTruncate(inner.rest, after.block, rest);
    var a := t[1..][..|t[1..]| - |inner.rest|];
    var b := inner.rest[..|inner.rest| - |rest|];
    PrefixOfSplit(t[1..], a, inner.rest);
    PrefixOfSplit(inner.rest, b, rest);
    ParseTruncateLoop(t, a, b, rest, inner.block, after.block);
  }

  /** The bytes of a `[` case of `ParseTruncate`: the loop body `a` ends at
      its `]`, and what follows it, `b`, ends at the outer `]`. */
  lemma ParseTruncateLoop(t: seq<byte>, a: seq<byte>, b: seq<byte>, rest: seq<byte>, body: Block, next: Block)
    requires t != [] && t[0] == OpenToken && t[1..] == a + (b + rest)
    requires ParseBlock(a) == Ok(body, [], true) && ParseBlock(b) == Ok(next, [], true)
    ensures rest == t[|t| - |rest|..]
    ensures ParseBlock(t[..|t| - |rest|]) == Ok(Block([While(body)] + next.children), [], true)
  {
    assert t == [OpenToken] + t[1..];
    PrefixOfThree(t, OpenToken, a, b, rest);
    ParseOpenPrefix(t[..|t| - |rest|], a, b, body);
  }

  /** The leaf case of `ParseTruncate`: the bytes `a` after the leaf end at
      the `]`. */
  lemma ParseTruncateLeaf(t: seq<byte>, a: seq<byte>, rest: seq<byte>, next: Block)
    requires t != [] && IsLeafToken(t[0]) && t[1..] == a + rest
    requires ParseBlock(a) == Ok(next, [], true)
    ensures rest == t[|t| - |rest|..]
    ensures ParseBlock(t[..|t| - |rest|]) == Ok(Block([LeafOf(t[0])] + next.children), [], true)
  {
    var u := t[..|t| - |rest|];
    assert t == [t[0]] + a + rest;
    assert u[1..] == a;
    ParseLeafStep(u);
  }

  /** A parse that starts at a leaf byte is that leaf, then the parse of the
      bytes after it. */
  lemma ParseLeafStep(s: seq<byte>)
    requires s != [] && IsLeafToken(s[0])
    ensures ParseBlock(s) == Prepend([LeafOf(s[0])], ParseBlock(s[1..]))
  {
  }

  /** A `[` followed by a text that parses to `inner` up to its `]`, then
      by `b`: the loop around `inner`, then the parse of `b`. */
  lemma ParseOpenPrefix(u: seq<byte>, a: seq<byte>, b: seq<byte>, inner: Block)
    requires u != [] && u[0] == OpenToken && u[1..] == a + b
    requires ParseBlock(a) == Ok(inner, [], true)
    ensures ParseBlock(u) == Prepend([While(inner)], ParseBlock(b))
  {
    ParseExtend(a, b);
    assert [] + b == b;
    assert ParseBlock(u[1..]) == Ok(inner, b, true);
    ParseOpenStep(u);
  }

  /** A sequence is its prefix followed by its suffix. */
  lemma PrefixOfSplit(t: seq<byte>, a: seq<byte>, rest: seq<byte>)
    requires |rest| <= |t| && a == t[..|t| - |rest|] && rest == t[|t| - |rest|..]
    ensures t == a + rest
  {
  }

  /** Cutting a known tail off a sequence built from a head byte and two parts. */
  lemma PrefixOfThree(t: seq<byte>, x: byte, a: seq<byte>, b: seq<byte>, rest: seq<byte>)
    requires t == [x] + (a + (b + rest))
    ensures |t| - |rest| > 0 && t[..|t| - |rest|][0] == x
    ensures t[..|t| - |rest|][1..] == a + b
    ensures rest == t[|t| - |rest|..]
  {
    assert t == ([x] + (a + b)) + rest;
  }

  /** Every SyntaxError comes from a foreign byte that the top-level parse
      reached: the converse of `ParseForeign`. */
  lemma {:induction false} ParseFailsAt(s: seq<byte>) returns (k: nat)
    requires ParseBlock(s).SyntaxError?
    ensures k < |s| && !IsInstructionToken(s[k])
    ensures ParseBlock(s[..k]).Ok? && !ParseBlock(s[..k]).closed
    decreases |s|
  {
    if !IsInstructionToken(s[0]) {
      k := 0;
      assert s[..0] == [];
    } else if s[0] == OpenToken {
      var inner := ParseBlock(s[1..]);
      if inner.SyntaxError? {
        var j := ParseFailsAt(s[1..]);
        k := j + 1;
        assert s[..k][1..] == s[1..][..j];
        ParseOpenStep(s[..k]);
      } else {
        ParseOpenStep(s);
        assert inner.closed;
        var j := ParseFailsAt(inner.rest);
        k := ParseFailsAfterLoop(s, inner.block, inner.rest, j);
      }
    } else {
      var j := ParseFailsAt(s[1..]);
      k := j + 1;
      ParseLeafStep(s);
      assert s[..k][1..] == s[1..][..j];
      ParseLeafStep(s[..k]);
    }
  }

  /** The `[` case of `ParseFailsAt`: the loop closed, and the parse after
      it reaches a foreign byte at position `j` of what the loop left. */
  lemma ParseFailsAfterLoop(s: seq<byte>, body: Block, rest: seq<byte>, j: nat) returns (k: nat)
    requires s != [] && s[0] == OpenToken && ParseBlock(s[1..]) == Ok(body, rest, true)
    requires j < |rest| && !IsInstructionToken(rest[j])
    requires ParseBlock(rest[..j]).Ok? && !ParseBlock(rest[..j]).closed
    ensures k < |s| && !IsInstructionToken(s[k])
    ensures ParseBlock(s[..k]).Ok? && !ParseBlock(s[..k]).closed
  {
    ParseTruncate(s[1..], body, rest);
    var a := s[1..][..|s[1..]| - |rest|];
    var b := rest[..j];
    PrefixOfSplit(s[1..], a, rest);
    assert rest == b + rest[j..];
    k := ParseReachesAfterLoop(s, a, b, rest[j..], body);
    assert s[k] == rest[j];
  }

  /** The bytes of a `[` case of `ParseFailsAt`: the loop body `a` ends at
      its `]`, and `b` after it parses to its end without a `]`. */
  lemma ParseReachesAfterLoop(s: seq<byte>, a: seq<byte>, b: seq<byte>, tail: seq<byte>, body: Block) returns (k: nat)
    requires s != [] && s[0] == OpenToken && s[1..] == a + (b + tail)
    requires ParseBlock(a) == Ok(body, [], true)
    requires ParseBlock(b).Ok? && !ParseBlock(b).closed
    ensures k == |s| - |tail| && tail == s[k..]
    ensures ParseBlock(s[..k]).Ok? && !ParseBlock(s[..k]).closed
  {
    k := |s| - |tail|;
    assert s == [OpenToken] + s[1..];
    PrefixOfThree(s, OpenToken, a, b, tail);
    ParseOpenPrefix(s[..k], a, b, body);
  }

  /** The parse of a text followed by the canonical text of a sequence of
      nodes: the nodes come first, then whatever `t` parses to. */
  lemma {:induction false} ParseUnparseAppend(cs: seq<Node>, t: seq<byte>)
    ensures ParseBlock(UnparseSeq(cs) + t) == Prepend(cs, ParseBlock(t))
    decreases |UnparseSeq(cs)|
  {
    if cs == [] {
      assert UnparseSeq(cs) + t == t;
    } else {
      var n := cs[0];
      var tail := UnparseSeq(cs[1..]) + t;
      assert UnparseSeq(cs) + t == UnparseNode(n) + tail;
      ParseUnparseAppend(cs[1..], t);
      if n.While? {
        assert |UnparseSeq(n.body.children)| < |UnparseNode(n)|;
        ParseUnparseAppend(n.body.children, [CloseToken] + tail);
        ParseWhileText(n.body, tail);
      } else {
        ParseLeafText(n, tail);
      }
      PrependTwice([n], cs[1..], ParseBlock(t));
      assert cs == [n] + cs[1..];
    }
  }

  /** One step of the round trip: the token of a leaf followed by `tail`. */
  lemma ParseLeafText(n: Node, tail: seq<byte>)
    requires !n.While?
    ensures ParseBlock(UnparseNode(n) + tail) == Prepend([n], ParseBlock(tail))
  {
    var s := UnparseNode(n) + tail;
    assert s == [LeafToken(n)] + tail;
    assert s[1..] == tail;
  }

  /** A parse that starts at `[` is the loop around the inner parse,
      followed by the parse of what the inner parse left. */
  lemma ParseOpenStep(s: seq<byte>)
    requires s != [] && s[0] == OpenToken && ParseBlock(s[1..]).Ok?
    ensures ParseBlock(s) ==
      Prepend([While(ParseBlock(s[1..]).block)], ParseBlock(ParseBlock(s[1..]).rest))
  {
  }

  /** A parse that starts at `]` is empty and stops right after it. */
  lemma ParseCloseStep(tail: seq<byte>)
    ensures ParseBlock([CloseToken] + tail) == Ok(Block([]), tail, true)
  {
    assert ([CloseToken] + tail)[1..] == tail;
  }

  lemma UnparseWhileText(b: Block, tail: seq<byte>)
    ensures UnparseNode(While(b)) + tail == [OpenToken] + (UnparseSeq(b.children) + ([CloseToken] + tail))
  {
  }

  /** One step of the round trip: the text of a loop followed by `tail`. */
  lemma ParseWhileText(b: Block, tail: seq<byte>)
    requires ParseBlock(UnparseSeq(b.children) + ([CloseToken] + tail))
      == Prepend(b.children, ParseBlock([CloseToken] + tail))
    ensures ParseBlock(UnparseNode(While(b)) + tail) == Prepend([While(b)], ParseBlock(tail))
  {
    var inner := UnparseSeq(b.children) + ([CloseToken] + tail);
    var s := [OpenToken] + inner;
    UnparseWhileText(b, tail);
    ParseCloseStep(tail);
    assert ParseBlock(inner) == Ok(b, tail, true) by {
      assert b.children + [] == b.children;
    }
    assert s[1..] == inner;
    ParseOpenStep(s);
  }

  /** Round trip: the canonical text of a block parses back to that block,
      consuming all of it. */
  lemma ParseUnparse(b: Block)
    ensures ParseBlock(UnparseSeq(b.children)) == Ok(b, [], false)
  {
    ParseUnparseAppend(b.children, []);
    assert UnparseSeq(b.children) + [] == UnparseSeq(b.children);
  }

  /** A `]` ends the block and consumes only itself: after a complete text,
      a stray `]` makes the parse return with everything after it unread. */
  lemma StrayClose(b: Block, q: seq<byte>)
    ensures ParseBlock(UnparseSeq(b.children) + [CloseToken] + q) == Ok(b, q, true)
  {
    ParseUnparseAppend(b.children, [CloseToken] + q);
    assert UnparseSeq(b.children) + [CloseToken] + q == UnparseSeq(b.children) + ([CloseToken] + q);
  }

  /** An unmatched `[` is accepted: when the bytes after it parse to their
      end without a `]` stopping them, the loop body is all of them, with
      any further unmatched `[` nested inside it. */
  lemma UnmatchedOpen(s: seq<byte>)
    requires ParseBlock(s).Ok? && !ParseBlock(s).closed
    ensures ParseBlock([OpenToken] + s) == Ok(Block([While(ParseBlock(s).block)]), [], false)
  {
    assert ([OpenToken] + s)[1..] == s;
  }

  /** `[[`: the second unmatched `[` is a loop nested in the first. */
  lemma UnmatchedOpenTwice()
    ensures ParseBlock([OpenToken, OpenToken]) == Ok(Block([While(Block([While(Block([]))]))]), [], false)
  {
    UnmatchedOpen([]);
    UnmatchedOpen([OpenToken]);
    assert [OpenToken] + [OpenToken] == [OpenToken, OpenToken];
  }

  /** The same for the canonical text of a block: `[` before it gives one
      loop around that block. */
  lemma UnmatchedOpenCanonical(b: Block)
    ensures ParseBlock([OpenToken] + UnparseSeq(b.children)) == Ok(Block([While(b)]), [], false)
  {
    ParseUnparse(b);
    UnmatchedOpen(UnparseSeq(b.children));
  }

  /** Once a parse has failed, or has stopped at a `]`, the bytes after the
      input make no difference to it. */
  lemma {:induction false} ParseExtend(s: seq<byte>, q: seq<byte>)
    ensures ParseBlock(s).SyntaxError? ==> ParseBlock(s + q).SyntaxError?
    ensures ParseBlock(s).Ok? && ParseBlock(s).closed ==>
      ParseBlock(s + q) == Ok(ParseBlock(s).block, ParseBlock(s).rest + q, true)
    decreases |s|
  {
    if s == [] {
      return;
    }
    assert (s + q)[0] == s[0] && (s + q)[1..] == s[1..] + q;
    if s[0] == OpenToken {
      ParseExtend(s[1..], q);
      match ParseBlock(s[1..])
      case SyntaxError =>
      case Ok(inner, rest, closed) =>
        if closed {
          ParseExtend(rest, q);
        } else {
          assert rest == [];
          assert ParseBlock([]).Ok? && !ParseBlock([]).closed;
        }
    } else if IsLeafToken(s[0]) {
      ParseExtend(s[1..], q);
    }
  }
}
