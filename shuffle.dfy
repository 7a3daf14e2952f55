/** The in-place shuffle the generator applies to each cell's neighbour list. */
module Shuffle {

  /** Shuffles `arr` in place and returns it. Walking `counter` down from the
      length, each round picks an index below `counter` (the source asks a
      random source; here the choice is left open) and swaps that entry with
      the one at `counter - 1`. Whatever the choices, the result holds the
      same entries as before. */
  method ShuffleArray<T>(arr: array<T>) returns (r: array<T>)
    modifies arr
    ensures r == arr
    ensures multiset(arr[..]) == multiset(old(arr[..]))
  {
    var counter := arr.Length;
    while counter > 0
      invariant 0 <= counter <= arr.Length
      invariant multiset(arr[..]) == multiset(old(arr[..]))
    {
      var idx :| 0 <= idx < counter;
      counter := counter - 1;
      var temp := arr[counter];
      arr[counter] := arr[idx];
      arr[idx] := temp;
    }
    r := arr;
  }
}
