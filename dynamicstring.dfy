/**
 * The two growable buffers of dynamicstring.c:
 *  - DyString, a NUL-terminated character buffer whose capacity doubles,
 *  - DyArray, a NULL-terminated array of strings whose capacity doubles.
 * C's NUL character is '\0'; C's NULL string pointer is None.
 */
module DynamicString {
  import opened Wrappers

  const DYSTRING_INIT: nat := 64
  const DYARRAY_INIT: nat := 128

  /**
   * The capacity after one append to a buffer holding `len` elements in `cap`
   * slots: both buffers double exactly when the element and its terminator
   * would not both fit.
   */
  function GrownCapacity(len: nat, cap: nat): nat
  {
    if len + 1 >= cap then 2 * cap else cap
  }

  class DyString {
    var buf: array?<char>  // ds->string, null once freed
    var len: nat           // ds->curr_size
    var cap: nat           // ds->max_size

    /** Either freed (no buffer, both sizes 0) or a live buffer with room for the terminator. */
    ghost predicate Valid()
      reads this
    {
      (buf == null ==> len == 0 && cap == 0) &&
      (buf != null ==> buf.Length == cap && len < cap)
    }

    ghost predicate Live()
      reads this
    {
      Valid() && buf != null
    }

    /** The characters written so far. */
    ghost function Contents(): seq<char>
      reads this, buf
      requires Valid()
    {
      if buf == null then [] else buf[..len]
    }

    /** The character right after the contents is the terminator. */
    ghost predicate Terminated()
      reads this, buf
      requires Live()
    {
      buf[len] == '\0'
    }

    /** init_dystring / new_dystring: empty, capacity 64. The buffer's bytes are uninitialised in C. */
    constructor ()
      ensures Live() && fresh(buf)
      ensures len == 0 && cap == DYSTRING_INIT && Contents() == []
    {
      buf := new char[DYSTRING_INIT];
      len := 0;
      cap := DYSTRING_INIT;
    }

    /** append_dystring: doubles the buffer when only the terminator slot is left, then writes c and a NUL. */
    method Append(c: char)
      requires Live()
      modifies this, buf
      ensures Live() && Terminated()
      ensures Contents() == old(Contents()) + [c]
      ensures len == old(len) + 1
      ensures cap == GrownCapacity(old(len), old(cap))
      ensures old(len) >= old(cap) - 1 ==> fresh(buf)
      ensures old(len) < old(cap) - 1 ==> buf == old(buf)
    {
      if len >= cap - 1 {
        var grown := new char[2 * cap];
        forall k | 0 <= k < cap {
          grown[k] := buf[k];
        }
        buf := grown;
        cap := 2 * cap;
      }
      buf[len] := c;
      len := len + 1;
      buf[len] := '\0';
    }

    /** merge_dystring: appends every character of the C string `target`, in order. */
    method Merge(target: seq<char>)
      requires Live()
      requires '\0' !in target
      modifies this, buf
      ensures Live()
      ensures Contents() == old(Contents()) + target
      ensures len == old(len) + |target|
      ensures cap >= old(cap)
      ensures old(len) + |target| < old(cap) ==> cap == old(cap) && buf == old(buf)
      ensures |target| > 0 ==> Terminated()
      ensures buf == old(buf) || fresh(buf)
    {
      var i := 0;
      while i < |target|
        invariant 0 <= i <= |target|
        invariant Live()
        invariant Contents() == old(Contents()) + target[..i]
        invariant len == old(len) + i
        invariant cap >= old(cap)
        invariant old(len) + |target| < old(cap) ==> cap == old(cap) && buf == old(buf)
        invariant i > 0 ==> Terminated()
        invariant buf == old(buf) || fresh(buf)
      {
        Append(target[i]);
        i := i + 1;
      }
      assert target[..i] == target;
    }
  }

  /** free_dystring: releases the buffer and zeroes both sizes; does nothing on NULL. */
  method FreeDyString(ds: DyString?)
    requires ds != null ==> ds.Valid()
    modifies ds
    ensures ds != null ==> ds.Valid() && ds.buf == null && ds.len == 0 && ds.cap == 0
    ensures ds != null ==> ds.Contents() == []
  {
    if ds == null {
      return;
    }
    ds.buf := null;
    ds.len := 0;
    ds.cap := 0;
  }

  /** The strings held in a prefix of a NULL-terminated array. */
  function Strings(s: seq<Option<string>>): (r: seq<string>)
    requires forall k :: 0 <= k < |s| ==> s[k].Some?
    ensures |r| == |s|
    ensures forall k :: 0 <= k < |s| ==> r[k] == s[k].value
  {
    if s == [] then [] else [s[0].value] + Strings(s[1..])
  }

  class DyArray {
    var str: array<Option<string>>  // da->str
    var len: nat                     // da->curr_size
    var cap: nat                     // da->max_size

    /** The first `len` slots hold strings, slot `len` is the NULL terminator. */
    ghost predicate Valid()
      reads this, str
    {
      str.Length == cap && len < cap &&
      (forall k :: 0 <= k < len ==> str[k].Some?) &&
      str[len] == None
    }

    ghost function Contents(): seq<string>
      reads this, str
      requires Valid()
    {
      Strings(str[..len])
    }

    /** init_dyarray / new_dyarray: no elements, capacity 128, NULL at index 0. */
    constructor ()
      ensures Valid() && fresh(str)
      ensures len == 0 && cap == DYARRAY_INIT && Contents() == []
    {
      str := new Option<string>[DYARRAY_INIT];
      len := 0;
      cap := DYARRAY_INIT;
      new;
      str[0] := None;
    }

    /** append_dyarray: doubles when the terminator would not fit, stores a copy of s and a NULL after it. */
    method Append(s: string)
      requires Valid()
      modifies this, str
      ensures Valid()
      ensures Contents() == old(Contents()) + [s]
      ensures len == old(len) + 1
      ensures cap == GrownCapacity(old(len), old(cap))
      ensures forall k :: 0 <= k < old(len) ==> str[k] == old(str[k])
      ensures old(len) + 1 >= old(cap) ==> fresh(str)
      ensures old(len) + 1 < old(cap) ==> str == old(str)
    {
      if len + 1 >= cap {
        var grown := new Option<string>[2 * cap];
        forall k | 0 <= k < cap {
          grown[k] := str[k];
        }
        str := grown;
        cap := 2 * cap;
      }
      str[len] := Some(s);
      len := len + 1;
      str[len] := None;
      assert str[..len] == old(str[..len]) + [Some(s)];
    }
  }
}
