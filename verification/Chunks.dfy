/** Input cut into the chunks in which a data source delivers it. */
module Chunks {

  import opened CodeString

  function Joined(chunks: seq<seq<byte>>): seq<byte> {
    if chunks == [] then [] else chunks[0] + Joined(chunks[1..])
  }

  /** Cut a byte string into chunks of given sizes; what is left over is the last one. */
  function Cut(file: seq<byte>, sizes: seq<nat>): (chunks: seq<seq<byte>>)
    ensures Joined(chunks) == file
  {
    if sizes == [] || sizes[0] > |file| then
      assert Joined([]) == [] && file + [] == file;
      [file]
    else
      assert file[..sizes[0]] + file[sizes[0]..] == file;
      [file[..sizes[0]]] + Cut(file[sizes[0]..], sizes[1..])
  }

  /** Bytes that arrive move from one side to the other. */
  lemma Arrives(source: seq<byte>, chunk: seq<byte>, beyond: seq<byte>, next: nat)
    requires chunk <= beyond && next <= |source|
    ensures (source + chunk)[next..] + beyond[|chunk|..] == source[next..] + beyond
  {
  }

  /** If something is still owed, the next chunk is part of it. */
  lemma Owed(left: seq<seq<byte>>, beyond: seq<byte>)
    requires beyond == Joined(left) && beyond != []
    ensures left != [] && left[0] <= beyond && beyond[|left[0]|..] == Joined(left[1..])
  {
  }
}
