/**
 * The argument handling of `sys_execv` in kern/syscall/execv_syscalls.c:
 * the argument strings are copied into one buffer, each padded to a
 * multiple of 4 bytes, and laid out at the top of the new user stack below
 * an array of pointers to them.
 */
module Execv {
  import opened KernTypes

  /**
   * The padding `4 - (actsize-1)%4 - 1` after a string of `actsize` bytes
   * (its terminating NUL included). `actsize` is a `size_t`, so for 0 the
   * subtraction wraps to SIZE_MAX, whose remainder modulo 4 is 3, and the
   * padding is 0.
   */
  function Padding(actsize: nat): (p: int)
    ensures 0 <= p <= 3
    ensures actsize >= 1 ==> (actsize + p) % 4 == 0
    ensures actsize == 0 ==> p == 0
  {
    if actsize == 0 then 0 else 4 - (actsize - 1) % 4 - 1
  }

  /** The bytes a string of `actsize` bytes occupies once padded (`arg_lengths[i]`). */
  function PaddedLength(actsize: nat): nat {
    actsize + Padding(actsize)
  }

  /** The padded length is the smallest multiple of 4 that holds the string. */
  lemma PaddedLengthIsLeastMultiple(actsize: nat, m: nat)
    requires actsize >= 1 && m % 4 == 0 && m >= actsize
    ensures PaddedLength(actsize) % 4 == 0 && actsize <= PaddedLength(actsize) <= m
  {
  }

  /** `n` NUL bytes. */
  function Zeros(n: nat): (z: seq<char>)
    ensures |z| == n && forall k :: 0 <= k < n ==> z[k] == '\0'
  {
    seq(n, _ => '\0')
  }

  /** The padded lengths of the arguments, each counting its NUL. */
  function Lengths(args: seq<string>): (l: seq<nat>)
    ensures |l| == |args|
  {
    seq(|args|, i requires 0 <= i < |args| => PaddedLength(|args[i]| + 1))
  }

  /** The sum of a sequence of lengths. */
  function Sum(s: seq<nat>): nat
  {
    if s == [] then 0 else Sum(s[..|s| - 1]) + s[|s| - 1]
  }

  /** The room the arguments take once padded: `size_with_pad` after the argument loop. */
  function Size(args: seq<string>): nat
  {
    if args == [] then 0 else Size(args[..|args| - 1]) + PaddedLength(|args[|args| - 1]| + 1)
  }

  /** That room is the sum of the padded lengths. */
  lemma {:induction false} SizeIsSum(args: seq<string>)
    ensures Size(args) == Sum(Lengths(args))
    decreases |args|
  {
    if args != [] {
      SizeIsSum(args[..|args| - 1]);
      LengthsOfPrefix(args, |args| - 1);
    }
  }

  /**
   * The argument layout: each string with its NUL and NUL padding, back to
   * back in order.
   */
  function Packed(args: seq<string>): (b: seq<char>)
    ensures |b| == Size(args)
  {
    if args == [] then []
    else
      var init := args[..|args| - 1];
      var last := args[|args| - 1];
      Packed(init) + last + ['\0'] + Zeros(Padding(|last| + 1))
  }

  /**
   * Argument `i` sits in the buffer at the sum of the padded lengths before
   * it, followed by its NUL.
   */
  lemma {:induction false} StringAt(args: seq<string>, i: nat)
    requires i < |args|
    ensures var at := Size(args[..i]);
      at + |args[i]| < |Packed(args)| &&
      Packed(args)[at..at + |args[i]|] == args[i] && Packed(args)[at + |args[i]|] == '\0'
    decreases |args|
  {
    var init := args[..|args| - 1];
    var last := args[|args| - 1];
    var q := Packed(init);
    var tail := last + ['\0'] + Zeros(Padding(|last| + 1));
    assert Packed(args) == q + tail;
    if i < |args| - 1 {
      assert init[..i] == args[..i];
      StringAt(init, i);
      assert init[i] == args[i];
      var at := Size(init[..i]);
      SliceOfPrefix(q, tail, at, at + |args[i]|);
    } else {
      assert tail[..|last|] == last;
      SliceOfSuffix(q, tail, |last|);
    }
  }

  /** The padded lengths of a prefix of the arguments are a prefix of their padded lengths. */
  lemma LengthsOfPrefix(args: seq<string>, k: nat)
    requires k <= |args|
    ensures Lengths(args)[..k] == Lengths(args[..k])
  {
    assert forall j :: 0 <= j < k ==> args[..k][j] == args[j];
  }

  /** The padded lengths up to argument `i`, and that argument's. */
  lemma LengthsUpTo(args: seq<string>, i: nat)
    requires i < |args|
    ensures Lengths(args)[..i + 1] == Lengths(args)[..i] + [PaddedLength(|args[i]| + 1)]
  {
  }

  /** A slice that lies within the first part of a concatenation is a slice of that part. */
  lemma SliceOfPrefix(q: seq<char>, r: seq<char>, a: nat, b: nat)
    requires a <= b < |q|
    ensures (q + r)[a..b] == q[a..b] && (q + r)[b] == q[b]
  {
    assert forall k :: a <= k < b ==> (q + r)[k] == q[k];
  }

  /** The second part of a concatenation starts right after the first. */
  lemma SliceOfSuffix(q: seq<char>, r: seq<char>, n: nat)
    requires n < |r|
    ensures (q + r)[|q|..|q| + n] == r[..n] && (q + r)[|q| + n] == r[n]
  {
    assert forall k :: 0 <= k < n ==> (q + r)[|q| + k] == r[k];
  }


  /** Every argument takes at least 4 bytes, so `n` arguments take at least `4n`. */
  lemma {:induction false} SizeAtLeast(args: seq<string>)
    ensures Size(args) >= 4 * |args|
    decreases |args|
  {
    if args != [] {
      SizeAtLeast(args[..|args| - 1]);
    }
  }

  /** `final_args` as the argument loop finds it: at least 4 bytes, NUL past the first 4. */
  predicate Zeroed(bg: seq<char>) {
    |bg| >= 4 && forall k :: 4 <= k < |bg| ==> bg[k] == '\0'
  }

  /**
   * The bytes `[from, to)` of `final_args` as the argument loop finds them:
   * the copied-in vector bytes `vec` below offset 4, NUL from the bzero above.
   */
  function Residue(vec: seq<char>, from: nat, to: nat): (r: seq<char>)
    requires |vec| == 4 && from <= to
    ensures |r| == to - from
  {
    seq(to - from, j requires 0 <= j < to - from => if from + j < 4 then vec[from + j] else '\0')
  }

  /**
   * What the argument loop leaves in `final_args`: each string and its NUL
   * written at its position, and its padding left as the buffer held it
   * (`vec`, the 4 bytes copied in from the vector, then NUL).
   */
  function Block(vec: seq<char>, args: seq<string>): (b: seq<char>)
    requires |vec| == 4
    ensures |b| == |Packed(args)|
  {
    if args == [] then []
    else
      var init := args[..|args| - 1];
      var last := args[|args| - 1];
      var end := |Packed(init)| + |last| + 1;
      Block(vec, init) + last + ['\0'] + Residue(vec, end, end + Padding(|last| + 1))
  }

  /**
   * The copied buffer differs from the NUL-padded layout only in the padding
   * of argument 0 below offset 4, which still holds the vector's bytes.
   */
  lemma {:induction false} BlockMatchesPacked(vec: seq<char>, args: seq<string>)
    requires |vec| == 4
    ensures forall k :: 0 <= k < |Packed(args)| ==>
      Block(vec, args)[k] == if args != [] && |args[0]| + 1 <= k < 4 then vec[k] else Packed(args)[k]
    decreases |args|
  {
    if args != [] {
      var init := args[..|args| - 1];
      var last := args[|args| - 1];
      var pos := |Packed(init)|;
      var end := pos + |last| + 1;
      var pad := Padding(|last| + 1);
      BlockMatchesPacked(vec, init);
      SizeAtLeast(init);
      var b := Block(vec, init) + last + ['\0'];
      var p := Packed(init) + last + ['\0'];
      assert Block(vec, args) == b + Residue(vec, end, end + pad);
      assert Packed(args) == p + Zeros(pad);
      forall k | 0 <= k < |Packed(args)|
        ensures Block(vec, args)[k] == if |args[0]| + 1 <= k < 4 then vec[k] else Packed(args)[k]
      {
        if k < pos {
          assert init != [] && init[0] == args[0];
          assert Block(vec, args)[k] == Block(vec, init)[k] && Packed(args)[k] == Packed(init)[k];
        } else if init == [] {
          assert args[0] == last && pos == 0;
        }
      }
    }
  }

  /** Argument `i` and its NUL are in the copied buffer where the layout puts them. */
  lemma StringInBlock(vec: seq<char>, args: seq<string>, i: nat)
    requires |vec| == 4 && i < |args|
    ensures var at := Size(args[..i]);
      at + |args[i]| < |Block(vec, args)| &&
      Block(vec, args)[at..at + |args[i]|] == args[i] && Block(vec, args)[at + |args[i]|] == '\0'
  {
    StringAt(args, i);
    BlockMatchesPacked(vec, args);
    var at := Size(args[..i]);
    SizeAtLeast(args[..i]);
    assert i > 0 ==> at >= 4;
    assert forall k :: at <= k <= at + |args[i]| ==> Block(vec, args)[k] == Packed(args)[k];
  }

  /**
   * A first argument shorter than 3 bytes leaves vector bytes in its
   * padding: `"ls"` occupies 4 bytes, and the fourth is the vector's, not NUL.
   */
  lemma ShortFirstArgumentKeepsVectorByte(vec: seq<char>)
    requires |vec| == 4
    ensures Block(vec, ["ls"]) == ['l', 's', '\0', vec[3]]
  {
    var args := ["ls"];
    assert args[..0] == [];
    assert Residue(vec, 3, 4) == [vec[3]];
  }

  /** copyinstr of `s` to offset `at`: its bytes, then its NUL, written one at a time. */
  function CopyInStr(buf: seq<char>, at: nat, s: string): (r: seq<char>)
    requires at + |s| + 1 <= |buf|
    ensures |r| == |buf|
    decreases |s|
  {
    if s == [] then buf[at := '\0'] else CopyInStr(buf[at := s[0]], at + 1, s[1..])
  }

  /** copyinstr replaces the bytes at `at` by those of `s` and its NUL, and no others. */
  lemma {:induction false} CopyInStrWrites(buf: seq<char>, at: nat, s: string)
    requires at + |s| + 1 <= |buf|
    ensures CopyInStr(buf, at, s) == buf[..at] + s + ['\0'] + buf[at + |s| + 1..]
    decreases |s|
  {
    if s != [] {
      var next := buf[at := s[0]];
      CopyInStrWrites(next, at + 1, s[1..]);
      assert next[..at + 1] == buf[..at] + [s[0]];
      assert next[at + 1 + |s[1..]| + 1..] == buf[at + |s| + 1..];
      assert [s[0]] + s[1..] == s;
    }
  }

  /** Block of the arguments with one more at the end, unfolded once. */
  lemma BlockSnoc(vec: seq<char>, prefix: seq<string>, s: string)
    requires |vec| == 4
    ensures var end := |Packed(prefix)| + |s| + 1;
      |Packed(prefix + [s])| == end + Padding(|s| + 1) &&
      Block(vec, prefix + [s]) == Block(vec, prefix) + s + ['\0'] + Residue(vec, end, end + Padding(|s| + 1))
  {
    var a := prefix + [s];
    assert a[..|a| - 1] == prefix;
  }

  /** A stretch of the buffer the argument loop finds is the matching `Residue`. */
  lemma ResidueOfBuffer(bg: seq<char>, from: nat, to: nat)
    requires Zeroed(bg)
    requires from <= to <= |bg|
    ensures bg[from..to] == Residue(bg[..4], from, to)
  {
    var r := Residue(bg[..4], from, to);
    assert forall j :: 0 <= j < to - from ==> bg[from..to][j] == r[j];
  }

  /** Writing a string and its NUL over the start of a tail of `bg`. */
  lemma Splice(head: seq<char>, s: string, bg: seq<char>, stop: nat)
    requires |head| + |s| + 1 <= stop <= |bg|
    ensures CopyInStr(head + bg[|head|..], |head|, s) == head + s + ['\0'] + bg[|head| + |s| + 1..stop] + bg[stop..]
  {
    var buf := head + bg[|head|..];
    var end := |head| + |s| + 1;
    CopyInStrWrites(buf, |head|, s);
    assert buf[..|head|] == head;
    assert buf[end..] == bg[end..] == bg[end..stop] + bg[stop..];
  }

  /** One round of the argument loop extends the copied buffer by one argument. */
  lemma CopyStep(bg: seq<char>, prefix: seq<string>, s: string, buf: seq<char>)
    requires Zeroed(bg)
    requires |Packed(prefix + [s])| <= |bg|
    requires buf == Block(bg[..4], prefix) + bg[|Packed(prefix)|..]
    ensures |Packed(prefix)| + |s| + 1 <= |buf|
    ensures CopyInStr(buf, |Packed(prefix)|, s) == Block(bg[..4], prefix + [s]) + bg[|Packed(prefix + [s])|..]
  {
    var end := |Packed(prefix)| + |s| + 1;
    var stop := end + Padding(|s| + 1);
    BlockSnoc(bg[..4], prefix, s);
    ResidueOfBuffer(bg, end, stop);
    Splice(Block(bg[..4], prefix), s, bg, stop);
  }

  /** The copy position after `n` arguments: the sum of their padded lengths. */
  function Offset(args: seq<string>, n: nat): nat
    requires n <= |args|
  {
    if n == 0 then 0 else Offset(args, n - 1) + PaddedLength(|args[n - 1]| + 1)
  }

  /** The copy position after `n` arguments is their size. */
  lemma {:induction false} OffsetIsSize(args: seq<string>, n: nat)
    requires n <= |args|
    ensures Offset(args, n) == Size(args[..n])
  {
    if n > 0 {
      OffsetIsSize(args, n - 1);
      assert args[..n][..n - 1] == args[..n - 1];
    }
  }

  /** The copy position only moves forward. */
  lemma {:induction false} OffsetGrows(args: seq<string>, n: nat, m: nat)
    requires n <= m <= |args|
    ensures Offset(args, n) <= Offset(args, m)
    decreases m
  {
    if n < m {
      OffsetGrows(args, n, m - 1);
    }
  }

  /** `final_args` once the argument loop has copied the first `n` arguments into `bg`. */
  function Fill(bg: seq<char>, args: seq<string>, n: nat): (r: seq<char>)
    requires n <= |args| && Offset(args, n) <= |bg|
    ensures |r| == |bg|
  {
    if n == 0 then bg else CopyInStr(Fill(bg, args, n - 1), Offset(args, n - 1), args[n - 1])
  }

  /** The first `n` rounds of the loop leave `Block` of those arguments, then the rest of `bg`. */
  lemma {:induction false} FillIsBlock(bg: seq<char>, args: seq<string>, n: nat)
    requires Zeroed(bg) && n <= |args| && Offset(args, n) <= |bg|
    ensures Fill(bg, args, n) == Block(bg[..4], args[..n]) + bg[Offset(args, n)..]
  {
    OffsetIsSize(args, n);
    if n == 0 {
      assert args[..0] == [];
    } else {
      FillIsBlock(bg, args, n - 1);
      OffsetIsSize(args, n - 1);
      assert args[..n] == args[..n - 1] + [args[n - 1]];
      CopyStep(bg, args[..n - 1], args[n - 1], Fill(bg, args, n - 1));
    }
  }

  /** The lowest index whose status is an error, if any. */
  function FirstFailure(status: seq<int>): (r: Option<nat>)
    ensures r.Some? ==> (r.value < |status| && status[r.value] != 0 &&
      forall j :: 0 <= j < r.value ==> status[j] == 0)
    ensures r.None? ==> forall j :: 0 <= j < |status| ==> status[j] == 0
  {
    if status == [] then None
    else if status[0] != 0 then Some(0)
    else
      var r := FirstFailure(status[1..]);
      assert forall j :: 1 <= j < |status| ==> status[j] == status[1..][j - 1];
      if r.None? then None else Some(r.value + 1)
  }


  /** The copied arguments: the buffer, the padded lengths and their total (`size_with_pad`). */
  datatype ArgBlock = ArgBlock(buffer: seq<char>, lengths: seq<nat>, sizeWithPad: nat)

  /**
   * The argument loop of `sys_execv`. `finalArgs` is the buffer as the loop
   * finds it (NUL past its first 4 bytes) and `status[k]` is what copyinstr
   * reports for argument `k`; the first error is passed on. Otherwise the
   * start of the buffer holds `Block` of the arguments and the rest is as it
   * was, the lengths are their padded lengths, and `size_with_pad` is the
   * sum of those lengths. The arguments must fit in the buffer.
   */
  method CopyArgs(args: seq<string>, status: seq<int>, finalArgs: seq<char>) returns (res: Result<ArgBlock>)
    requires |status| == |args|
    requires Zeroed(finalArgs)
    requires |Packed(args)| <= |finalArgs|
    ensures match FirstFailure(status)
      case Some(k) => res == Err(Passed(status[k]))
      case None =>
        res.Ok? && res.value.buffer == Block(finalArgs[..4], args) + finalArgs[|Packed(args)|..] &&
        res.value.lengths == Lengths(args) && res.value.sizeWithPad == Sum(Lengths(args)) == |Packed(args)|
  {
    var buffer := finalArgs;
    var lengths: seq<nat> := [];
    var copyPosition := 0;
    var sizeWithPad := 0;
    var argCount := 0;
    OffsetIsSize(args, |args|);
    assert args[..|args|] == args;
    while argCount < |args|
      invariant 0 <= argCount <= |args|
      invariant forall j :: 0 <= j < argCount ==> status[j] == 0
      invariant copyPosition == sizeWithPad == Offset(args, argCount) <= |finalArgs|
      invariant buffer == Fill(finalArgs, args, argCount)
      invariant lengths == Lengths(args)[..argCount]
    {
      if status[argCount] != 0 {
        return Err(Passed(status[argCount]));
      }
      var actsize := |args[argCount]| + 1;
      var padding := Padding(actsize);
      OffsetGrows(args, argCount + 1, |args|);
      LengthsUpTo(args, argCount);
      buffer := CopyInStr(buffer, copyPosition, args[argCount]);
      lengths := lengths + [PaddedLength(actsize)];
      argCount := argCount + 1;
      copyPosition := copyPosition + actsize;
      copyPosition := copyPosition + padding;
      sizeWithPad := sizeWithPad + actsize + padding;
    }
    FillIsBlock(finalArgs, args, |args|);
    SizeIsSum(args);
    assert lengths == Lengths(args);
    res := Ok(ArgBlock(buffer, lengths, sizeWithPad));
  }

  /**
   * The pointer loop of `sys_execv`: the `i`th copyout stores, at
   * `stackptr - total_size + 4*i`, the address `stackptr - size_with_pad`
   * plus the padded lengths of the arguments before argument `i`.
   */
  method ArgvPointers(stackptr: int, totalSize: int, sizeWithPad: int, lengths: seq<nat>)
    returns (stores: seq<(int, int)>)
    ensures |stores| == |lengths|
    ensures forall i :: 0 <= i < |lengths| ==>
      stores[i] == (stackptr - totalSize + 4 * i, stackptr - sizeWithPad + Sum(lengths[..i]))
  {
    var lower := stackptr - totalSize;
    var upper := stackptr - sizeWithPad;
    stores := [];
    for i := 0 to |lengths|
      invariant |stores| == i
      invariant lower == stackptr - totalSize + 4 * i
      invariant upper == stackptr - sizeWithPad + Sum(lengths[..i])
      invariant forall j :: 0 <= j < i ==>
        stores[j] == (stackptr - totalSize + 4 * j, stackptr - sizeWithPad + Sum(lengths[..j]))
    {
      assert lengths[..i + 1][..i] == lengths[..i];
      stores := stores + [(lower, upper)];
      lower := lower + 4;
      upper := upper + lengths[i];
    }
  }

  /**
   * What `enter_new_process` receives from `sys_execv`: the argument count,
   * the argv address (also the new stack pointer) and the entry point,
   * with the pointer stores and the string block copied out at `strings`.
   */
  datatype NewImage = NewImage(argc: nat, argv: int, entry: int, stores: seq<(int, int)>, strings: int, block: seq<char>)

  /**
   * The stack layout `sys_execv` hands over: the block copied out is `Block`
   * of the arguments, whose first padding may hold the vector bytes `vec`.
   * The strings occupy `[stackptr - size_with_pad, stackptr)`, the argv
   * array starts at `stackptr - total_size` with `total_size =
   * size_with_pad + 4*argc + 4`, so one 4-byte slot lies between its last
   * pointer and the strings, and pointer `i`, stored at `argv + 4*i`, holds
   * the address of argument `i`, which is followed by its NUL.
   */
  predicate LaidOut(img: NewImage, a: seq<string>, vec: seq<char>, stackptr: int, entry: int)
    requires |vec| == 4
  {
    img.argc == |a| && img.entry == entry && img.block == Block(vec, a) &&
    img.strings + |img.block| == stackptr && img.argv + 4 * |a| + 4 == img.strings &&
    |img.stores| == |a| &&
    forall i :: 0 <= i < |a| ==>
      var p := img.stores[i].1 - img.strings;
      img.stores[i].0 == img.argv + 4 * i &&
      0 <= p && p + |a[i]| < |img.block| && img.block[p..p + |a[i]|] == a[i] && img.block[p + |a[i]|] == '\0'
  }

  /**
   * The tail of `sys_execv` once the stack is defined: compute
   * `total_size`, store the argv pointers and copy out the first
   * `size_with_pad` bytes of the buffer.
   */
  method BuildImage(a: seq<string>, vec: seq<char>, argv: ArgBlock, stackptr: int, entry: int) returns (img: NewImage)
    requires |vec| == 4
    requires argv.lengths == Lengths(a) && argv.sizeWithPad == Sum(Lengths(a))
    requires argv.sizeWithPad <= |argv.buffer| && argv.buffer[..argv.sizeWithPad] == Block(vec, a)
    ensures LaidOut(img, a, vec, stackptr, entry)
  {
    var argCount := |argv.lengths|;
    var totalSize := argv.sizeWithPad + 4 * argCount + 4;
    var bottomOfStack := stackptr - totalSize;
    var upper2 := stackptr - argv.sizeWithPad;
    var stores := ArgvPointers(stackptr, totalSize, argv.sizeWithPad, argv.lengths);
    img := NewImage(argCount, bottomOfStack, entry, stores, upper2, argv.buffer[..argv.sizeWithPad]);
    forall i | 0 <= i < |a|
      ensures var p := img.stores[i].1 - img.strings;
        img.stores[i].0 == img.argv + 4 * i &&
        0 <= p && p + |a[i]| < |img.block| && img.block[p..p + |a[i]|] == a[i] && img.block[p + |a[i]|] == '\0'
    {
      LengthsOfPrefix(a, i);
      SizeIsSum(a[..i]);
      assert img.stores[i].1 - img.strings == Size(a[..i]);
      StringInBlock(vec, a, i);
    }
  }

  /**
   * `sys_execv(prognam, args)`, with the outcome of each call into VFS, the
   * loader and user memory as parameters: `progStatus` (copyinstr of the
   * name), `vecStatus` and `vecBytes` (copyin of the first 4 bytes of the
   * vector into the buffer), `argStatus` (copyinstr of each argument),
   * `vfsError` (vfs_open), `asOk` (as_create), `elfError` and `entry`
   * (load_elf), `stackError` and `stackptr` (as_define_stack); `argMax` is
   * the size of the buffer, which the arguments must fit. NULL is EFAULT
   * and each error is passed on in the order the calls are made (a failed
   * as_create is ENOMEM). Otherwise the new image has the stack layout
   * `LaidOut` describes.
   */
  method SysExecv(prognam: Option<string>, args: Option<seq<string>>, progStatus: int, vecStatus: int,
                  vecBytes: seq<char>, argStatus: seq<int>, vfsError: int, asOk: bool, elfError: int,
                  entry: int, stackError: int, stackptr: int, argMax: nat)
    returns (res: Result<NewImage>)
    requires |vecBytes| == 4 && argMax >= 4
    requires args.Some? ==> |argStatus| == |args.value| && |Packed(args.value)| <= argMax
    ensures res.Ok? <==> (prognam.Some? && args.Some? && progStatus == 0 && vecStatus == 0 &&
      FirstFailure(argStatus).None? && vfsError == 0 && asOk && elfError == 0 && stackError == 0)
    ensures res.Err? ==> (res.error ==
      if prognam.None? || args.None? then EFAULT
      else if progStatus != 0 then Passed(progStatus)
      else if vecStatus != 0 then Passed(vecStatus)
      else if FirstFailure(argStatus).Some? then Passed(argStatus[FirstFailure(argStatus).value])
      else if vfsError != 0 then Passed(vfsError)
      else if !asOk then ENOMEM
      else if elfError != 0 then Passed(elfError)
      else Passed(stackError))
    ensures res.Ok? ==> LaidOut(res.value, args.value, vecBytes, stackptr, entry)
  {
    if prognam.None? || args.None? {
      return Err(EFAULT);
    }
    var finalArgs := Zeros(argMax);
    if progStatus != 0 {
      return Err(Passed(progStatus));
    }
    if vecStatus != 0 {
      return Err(Passed(vecStatus));
    }
    finalArgs := vecBytes + finalArgs[4..];
    assert finalArgs[..4] == vecBytes;
    var copied := CopyArgs(args.value, argStatus, finalArgs);
    if copied.Err? {
      return Err(copied.error);
    }
    if vfsError != 0 {
      return Err(Passed(vfsError));
    }
    if !asOk {
      return Err(ENOMEM);
    }
    if elfError != 0 {
      return Err(Passed(elfError));
    }
    if stackError != 0 {
      return Err(Passed(stackError));
    }
    var img := BuildImage(args.value, vecBytes, copied.value, stackptr, entry);
    res := Ok(img);
  }
}
