/** zeos/devices.c sys_write_console, and the copy routine of zeos/utils.c that it stages its output through. */
module Console {

  const MAX_WRITE_BLOCK: nat := 256

  /** copy_from_user: words of four bytes while more than four remain, then single bytes. */
  method CopyFromUser(user: seq<char>, at: nat, dest: array<char>, size: nat)
    requires at + size <= |user| && size <= dest.Length
    modifies dest
    ensures dest[..size] == user[at..at + size] && forall k :: size <= k < dest.Length ==> dest[k] == old(dest[k])
  {
    var left := size;
    var i := 0;
    while left > 4
      invariant i + left == size && forall k :: 0 <= k < i ==> dest[k] == user[at + k]
      invariant forall k :: size <= k < dest.Length ==> dest[k] == old(dest[k])
    {
      dest[i], dest[i + 1], dest[i + 2], dest[i + 3] := user[at + i], user[at + i + 1], user[at + i + 2],
        user[at + i + 3];
      i := i + 4;
      left := left - 4;
    }
    while left > 0
      invariant i + left == size && forall k :: 0 <= k < i ==> dest[k] == user[at + k]
      invariant forall k :: size <= k < dest.Length ==> dest[k] == old(dest[k])
    {
      dest[i] := user[at + i];
      i := i + 1;
      left := left - 1;
    }
  }

  /** printc, once for each of the first n characters of the staging block. */
  method Print(block: array<char>, n: nat, screen: seq<char>) returns (screen': seq<char>)
    requires n <= block.Length
    ensures screen' == screen + block[..n]
  {
    screen' := screen;
    for j := 0 to n
      invariant screen' == screen + block[..j]
    {
      screen' := screen' + [block[j]];
    }
  }

  /** sys_write_console: any number of characters reaches the screen, each once and in order. */
  method WriteConsole(buffer: seq<char>, screen: seq<char>) returns (r: int, screen': seq<char>)
    ensures r == |buffer| && screen' == screen + buffer
  {
    var block := new char[MAX_WRITE_BLOCK];
    var size := |buffer|;
    var loop, outBlock := size / MAX_WRITE_BLOCK, size % MAX_WRITE_BLOCK;
    r, screen' := 0, screen;
    for i := 0 to loop
      invariant r == i * MAX_WRITE_BLOCK && screen' == screen + buffer[..r]
    {
      CopyFromUser(buffer, i * MAX_WRITE_BLOCK, block, MAX_WRITE_BLOCK);
      screen' := Print(block, MAX_WRITE_BLOCK, screen');
      assert buffer[..r + MAX_WRITE_BLOCK] == buffer[..r] + buffer[r..r + MAX_WRITE_BLOCK];
      r := r + MAX_WRITE_BLOCK;
    }
    if outBlock != 0 {
      CopyFromUser(buffer, size - outBlock, block, outBlock);
      screen' := Print(block, outBlock, screen');
      assert buffer[..r + outBlock] == buffer[..r] + buffer[r..r + outBlock];
      r := r + outBlock;
    }
    assert buffer[..size] == buffer;
  }
}
