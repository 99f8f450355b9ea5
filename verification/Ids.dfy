/** The numbers that stand for no arc and no node of a digraph. */
module Ids {

  const NO_ARC := -0x8000_0000
  const NO_NODE := -0x7fff_ffff
}
