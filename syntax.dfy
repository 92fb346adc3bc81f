/** The syntax tree of bf.py: the five leaf node classes, `WhileNode` and
    `CodeBlockNode`, and the instruction bytes that stand for them. */
module Syntax {
  import opened Bytes

  const DotToken: byte := 46       // '.'
  const PlusToken: byte := 43      // '+'
  const MinusToken: byte := 45     // '-'
  const ForwardToken: byte := 62   // '>'
  const BackwardToken: byte := 60  // '<'
  const OpenToken: byte := 91      // '['
  const CloseToken: byte := 93     // ']'

  /** A node of the tree. `While` wraps exactly one block. */
  datatype Node = Plus | Minus | Forward | Backward | Print | While(body: Block)

  /** A `CodeBlockNode`: its children, in the order they are executed. */
  datatype Block = Block(children: seq<Node>)

  predicate IsLeafToken(t: byte) {
    t == DotToken || t == PlusToken || t == MinusToken || t == ForwardToken || t == BackwardToken
  }

  /** The bytes the parser accepts; every other byte is a syntax error. */
  predicate IsInstructionToken(t: byte) {
    IsLeafToken(t) || t == OpenToken || t == CloseToken
  }

  /** The leaf node a leaf token stands for. */
  function LeafOf(t: byte): (n: Node)
    requires IsLeafToken(t)
    ensures !n.While?
  {
    if t == DotToken then Print
    else if t == PlusToken then Plus
    else if t == MinusToken then Minus
    else if t == ForwardToken then Forward
    else Backward
  }

  /** The token of a leaf node. */
  function LeafToken(n: Node): (t: byte)
    requires !n.While?
    ensures IsLeafToken(t) && LeafOf(t) == n
  {
    match n
    case Print => DotToken
    case Plus => PlusToken
    case Minus => MinusToken
    case Forward => ForwardToken
    case Backward => BackwardToken
  }

  /** The canonical source text of a tree: the parser's inverse. */
  function UnparseNode(n: Node): (s: seq<byte>)
    ensures s != []
    ensures forall i :: 0 <= i < |s| ==> IsInstructionToken(s[i])
  {
    match n
    case While(b) => [OpenToken] + UnparseSeq(b.children) + [CloseToken]
    case _ => [LeafToken(n)]
  }

  function UnparseSeq(cs: seq<Node>): (s: seq<byte>)
    ensures forall i :: 0 <= i < |s| ==> IsInstructionToken(s[i])
    ensures cs == [] <==> s == []
  {
    if cs == [] then [] else UnparseNode(cs[0]) + UnparseSeq(cs[1..])
  }
}
