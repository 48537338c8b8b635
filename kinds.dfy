/** The five bubble colours of page/bubble.go and the colour duality
    `Bubble.OppositeKind`. In the Go program a Kind is an `image/color`
    value; only these five constants are ever stored in a bubble. */
module Kinds {

  datatype Kind = White | Black | Blue | Red | Background

  /** The colour of the region dual to a bubble of kind `k`: White and Black
      swap, Red and Blue swap, and the page background is treated like White.
      (Go's `default` arm, which yields Background, is for colours outside the
      five; the enumeration leaves none.) */
  function OppositeKind(k: Kind): (r: Kind)
    ensures r != k && r != Background
    ensures (r == White) == (k == Black)
    ensures (r == Black) == (k == White || k == Background)
    ensures (r == Red) == (k == Blue)
  {
    match k
    case Black => White
    case White => Black
    case Background => Black
    case Red => Blue
    case Blue => Red
  }

  /** The duality is an involution on the four colours a bubble below the
      root can have; the background is the only colour it does not return to. */
  lemma OppositeKindInvolution(k: Kind)
    ensures k != Background <==> OppositeKind(OppositeKind(k)) == k
  {
  }
}
