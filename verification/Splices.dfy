/** Putting data over part of a sequence. */
module Splices {
  function Splice<T>(base: seq<T>, at: nat, data: seq<T>): (r: seq<T>)
    requires at + |data| <= |base|
    ensures |r| == |base|
  {
    base[..at] + data + base[at + |data|..]
  }
}
