/**
 * The INI value object: one configuration value kept both unfolded (one
 * buffer) and folded (the physical-line fragments written to the file),
 * with where it came from, the length of its key, the folding boundary and
 * an optional comment it owns.
 */
module ValueObject {

  import opened Wrappers
  import opened Bytes
  import opened Folding
  import opened FoldProperties
  import opened Unfolding

  /** The status codes the object's operations return. */
  datatype Status = EOK | EINVAL

  /**
   * A comment block, identified by its handle: two comments are the same
   * comment exactly when their handles are equal.
   */
  datatype Comment = Comment(handle: nat, lines: seq<seq<byte>>)

  /** " = ", written between the key and the value. */
  const EqualSign: seq<byte> := [32, 61, 32]

  /**
   * The two forms of a value agree: the fragments spell the unfolded
   * value, or, after a fold that left the first line empty, a space and
   * then the value.
   */
  predicate Agree(rawLines: seq<Fragment>, unfolded: seq<byte>) {
    Concat(rawLines) == unfolded || (|unfolded| > 0 && Concat(rawLines) == [SPACE] + unfolded)
  }

  /** Every fold agrees with the value it folds. */
  lemma FoldAgrees(v: seq<byte>, keyLen: nat, boundary: nat)
    requires Foldable(v)
    ensures Agree(Fold(v, keyLen, boundary), v)
  {
    FoldRoundTrip(v, keyLen, boundary);
  }

  /** Each line followed by the terminator. */
  function WithEol(lines: seq<seq<byte>>, eol: seq<byte>): seq<Fragment> {
    seq(|lines|, i requires 0 <= i < |lines| => lines[i] + eol)
  }

  /** The lines written out one after the other, each ended by the terminator. */
  function Terminated(lines: seq<seq<byte>>, eol: seq<byte>): seq<byte> {
    Concat(WithEol(lines, eol))
  }

  lemma WithEolJoin(a: seq<seq<byte>>, b: seq<seq<byte>>, eol: seq<byte>)
    ensures WithEol(a + b, eol) == WithEol(a, eol) + WithEol(b, eol)
  {
  }

  /** Writing one more line appends it and a terminator. */
  lemma TerminatedSnoc(lines: seq<seq<byte>>, x: seq<byte>, eol: seq<byte>)
    ensures Terminated(lines + [x], eol) == Terminated(lines, eol) + (x + eol)
  {
    WithEolJoin(lines, [x], eol);
    assert WithEol([x], eol) == [x + eol];
    ConcatSnoc(WithEol(lines, eol), x + eol);
  }

  /** The lines of the comment, none when there is no comment. */
  function CommentLines(comment: Option<Comment>): seq<seq<byte>> {
    if comment.Some? then comment.value.lines else []
  }

  /**
   * What `value_serialize` writes: the comment lines, the key, " = ", and
   * the fragments, each line ended by the terminator `eol`.
   */
  function Serialized(comment: Option<Comment>, keyPart: seq<byte>, rawLines: seq<Fragment>, eol: seq<byte>): seq<byte> {
    Terminated(CommentLines(comment), eol) + keyPart + EqualSign + Terminated(rawLines, eol)
  }

  /**
   * The serialized value read as lines of the file: the comment lines, then
   * the key, " = " and the first fragment on one line, then one line per
   * further fragment.
   */
  lemma SerializedLayout(comment: Option<Comment>, keyPart: seq<byte>, rawLines: seq<Fragment>, eol: seq<byte>)
    requires |rawLines| > 0
    ensures Serialized(comment, keyPart, rawLines, eol)
            == Terminated(CommentLines(comment) + [keyPart + EqualSign + rawLines[0]] + rawLines[1..], eol)
  {
    var c := CommentLines(comment);
    var first := keyPart + EqualSign + rawLines[0];
    var rest := Terminated(rawLines[1..], eol);
    assert Terminated(rawLines, eol) == (rawLines[0] + eol) + rest by {
      assert rawLines == [rawLines[0]] + rawLines[1..];
      TerminatedJoin([rawLines[0]], rawLines[1..], eol);
      TerminatedSnoc([], rawLines[0], eol);
      assert [] + [rawLines[0]] == [rawLines[0]];
    }
    assert Terminated(c + [first] + rawLines[1..], eol) == (Terminated(c, eol) + (first + eol)) + rest by {
      TerminatedJoin(c + [first], rawLines[1..], eol);
      TerminatedSnoc(c, first, eol);
    }
    RegroupLine(Terminated(c, eol), keyPart, EqualSign, rawLines[0], eol, rest);
  }

  /** Writing two lists of lines is writing one after the other. */
  lemma TerminatedJoin(a: seq<seq<byte>>, b: seq<seq<byte>>, eol: seq<byte>)
    ensures Terminated(a + b, eol) == Terminated(a, eol) + Terminated(b, eol)
  {
    WithEolJoin(a, b, eol);
    ConcatJoin(WithEol(a, eol), WithEol(b, eol));
  }

  /** The bytes of the key line, grouped by field or by line. */
  lemma RegroupLine(c: seq<byte>, k: seq<byte>, e: seq<byte>, r: seq<byte>, eol: seq<byte>, rest: seq<byte>)
    ensures c + k + e + ((r + eol) + rest) == (c + (k + e + r + eol)) + rest
  {
    calc {
      c + k + e + ((r + eol) + rest);
      { AppendAssoc(c + k + e, r + eol, rest); }
      (c + k + e + (r + eol)) + rest;
      { AppendAssoc(c + k + e, r, eol); AppendAssoc(c, k, e); AppendAssoc(c, k + e, r); AppendAssoc(c, k + e + r, eol); }
      (c + (k + e + r + eol)) + rest;
    }
  }

  /**
   * Key "foo", value "aaaa bbbb cccc", boundary 10, no comment: the value
   * is written as "foo = aaaa" and " bbbb cccc", each ended by `eol`.
   */
  lemma SerializedExample(eol: seq<byte>)
    ensures Serialized(None, [102, 111, 111],
                       Fold([97, 97, 97, 97, 32, 98, 98, 98, 98, 32, 99, 99, 99, 99], 3, 10), eol)
            == [102, 111, 111, 32, 61, 32, 97, 97, 97, 97] + eol
               + [32, 98, 98, 98, 98, 32, 99, 99, 99, 99] + eol
  {
    var r: seq<Fragment> := [[97, 97, 97, 97], [32, 98, 98, 98, 98, 32, 99, 99, 99, 99]];
    FoldExampleTwoLines();
    SerializedLayout(None, [102, 111, 111], r, eol);
    var first: seq<byte> := [102, 111, 111] + EqualSign + r[0];
    assert first == [102, 111, 111, 32, 61, 32, 97, 97, 97, 97];
    assert CommentLines(None) + [first] + r[1..] == [first, r[1]];
    TerminatedSnoc([first], r[1], eol);
    TerminatedSnoc([], first, eol);
    assert [] + [first] == [first];
  }

  class ValueObj {
    /** The folded form: the fragments, in order, each with its length. */
    var rawLines: seq<Fragment>
    /** The unfolded form: the whole value in one buffer. */
    var unfolded: seq<byte>
    var origin: nat
    var line: nat
    var keyLen: nat
    var boundary: nat
    var comment: Option<Comment>

    /** The folded and unfolded forms agree. */
    predicate Valid()
      reads this
    {
      Agree(rawLines, unfolded)
    }

    constructor (rawLines: seq<Fragment>, unfolded: seq<byte>, origin: nat, line: nat, keyLen: nat,
                 boundary: nat, comment: Option<Comment>)
      requires Agree(rawLines, unfolded)
      ensures Valid()
      ensures this.rawLines == rawLines && this.unfolded == unfolded
      ensures this.origin == origin && this.line == line && this.keyLen == keyLen
      ensures this.boundary == boundary && this.comment == comment
    {
      this.rawLines := rawLines;
      this.unfolded := unfolded;
      this.origin := origin;
      this.line := line;
      this.keyLen := keyLen;
      this.boundary := boundary;
      this.comment := comment;
    }

    /** `value_get_concatenated`: the unfolded value, in agreement with the fragments. */
    method GetConcatenated() returns (fullstr: seq<byte>)
      requires Valid()
      ensures fullstr == unfolded
      ensures Concat(rawLines) == fullstr || Concat(rawLines) == [SPACE] + fullstr
    {
      fullstr := unfolded;
    }

    /** `value_get_origin`. */
    method GetOrigin() returns (origin: nat)
      ensures origin == this.origin
    {
      origin := this.origin;
    }

    /** `value_get_line`. */
    method GetLine() returns (line: nat)
      ensures line == this.line
    {
      line := this.line;
    }

    /**
     * `value_set_keylen`: store the new key length and fold the value
     * again, replacing the old fragments.
     */
    method SetKeyLen(keyLen: nat)
      requires Foldable(unfolded)
      modifies this
      ensures unfolded == old(unfolded) && origin == old(origin) && line == old(line)
      ensures boundary == old(boundary) && comment == old(comment)
      ensures this.keyLen == keyLen
      ensures rawLines == Fold(unfolded, keyLen, boundary)
      ensures Valid()
    {
      this.keyLen := keyLen;
      rawLines := ValueFold(unfolded, this.keyLen, boundary);
      FoldAgrees(unfolded, this.keyLen, boundary);
    }

    /**
     * `value_update`: replace the value, its origin and the boundary, keep
     * the key length and the line, and fold the new value.
     */
    method Update(value: Option<seq<byte>>, length: nat, origin: nat, boundary: nat) returns (err: Status)
      requires value.Some? ==> length <= |value.value| && Foldable(value.value[..length])
      modifies this
      ensures value.None? ==> err == EINVAL && unchanged(this)
      ensures value.Some? ==> err == EOK && unfolded == value.value[..length]
      ensures value.Some? ==> this.origin == origin && this.boundary == boundary
      ensures value.Some? ==> keyLen == old(keyLen) && line == old(line) && comment == old(comment)
      ensures value.Some? ==> rawLines == Fold(unfolded, keyLen, boundary) && Valid()
    {
      if value.None? {
        return EINVAL;
      }
      var oneline := value.value[..length];
      this.origin := origin;
      unfolded := oneline;
      this.boundary := boundary;
      rawLines := ValueFold(unfolded, keyLen, this.boundary);
      FoldAgrees(unfolded, keyLen, this.boundary);
      err := EOK;
    }

    /** `value_extract_comment`: hand the comment to the caller and keep none. */
    method ExtractComment() returns (ic: Option<Comment>)
      modifies this
      ensures ic == old(comment) && comment.None?
      ensures rawLines == old(rawLines) && unfolded == old(unfolded) && origin == old(origin)
      ensures line == old(line) && keyLen == old(keyLen) && boundary == old(boundary)
    {
      ic := comment;
      comment := None;
    }

    /**
     * `value_put_comment`: install a comment. The previous comment is
     * destroyed, and returned here as `destroyed`, only when it is a
     * different comment; putting the same comment again destroys nothing.
     */
    method PutComment(ic: Option<Comment>) returns (err: Status, destroyed: Option<Comment>)
      modifies this
      ensures ic.None? ==> err == EINVAL && destroyed.None? && unchanged(this)
      ensures ic.Some? ==> err == EOK && comment == ic
      ensures ic.Some? ==> (destroyed.Some? <==> old(comment).Some? && old(comment).value.handle != ic.value.handle)
      ensures destroyed.Some? ==> destroyed == old(comment)
      ensures rawLines == old(rawLines) && unfolded == old(unfolded) && origin == old(origin)
      ensures line == old(line) && keyLen == old(keyLen) && boundary == old(boundary)
    {
      destroyed := None;
      if ic.None? {
        return EINVAL, None;
      }
      if comment.Some? && comment.value.handle != ic.value.handle {
        destroyed := comment;
      }
      comment := ic;
      err := EOK;
    }

    /**
     * `value_serialize`: the comment lines, the first `keyLen` bytes of
     * `key`, " = ", then every fragment, each line ended by `eol`.
     */
    method Serialize(key: seq<byte>, eol: seq<byte>) returns (out: seq<byte>)
      requires keyLen <= |key|
      ensures out == Serialized(comment, key[..keyLen], rawLines, eol)
    {
      out := [];
      if comment.Some? {
        var lines := comment.value.lines;
        var i := 0;
        while i < |lines|
          invariant 0 <= i <= |lines|
          invariant out == Terminated(lines[..i], eol)
        {
          assert lines[..i + 1] == lines[..i] + [lines[i]];
          TerminatedSnoc(lines[..i], lines[i], eol);
          out := out + (lines[i] + eol);
          i := i + 1;
        }
        assert lines[..i] == lines;
      }
      out := out + key[..keyLen];
      out := out + EqualSign;
      var head := out;
      var i := 0;
      while i < |rawLines|
        invariant 0 <= i <= |rawLines|
        invariant out == head + Terminated(rawLines[..i], eol)
      {
        assert rawLines[..i + 1] == rawLines[..i] + [rawLines[i]];
        TerminatedSnoc(rawLines[..i], rawLines[i], eol);
        AppendAssoc(head, Terminated(rawLines[..i], eol), rawLines[i] + eol);
        out := out + (rawLines[i] + eol);
        i := i + 1;
      }
      assert rawLines[..i] == rawLines;
    }
  }

  /**
   * `value_create_from_refarray`: a value object over fragments read from
   * a file, with the unfolded value their concatenation. Missing fragment
   * arrays are rejected.
   */
  method CreateFromRefArray(rawLines: Option<seq<Fragment>>, line: nat, origin: nat, keyLen: nat,
                            boundary: nat, ic: Option<Comment>) returns (err: Status, vo: Option<ValueObj>)
    ensures err == EINVAL <==> rawLines.None?
    ensures vo.Some? <==> err == EOK
    ensures vo.Some? ==> fresh(vo.value) && vo.value.rawLines == rawLines.value
                         && vo.value.unfolded == Concat(rawLines.value)
    ensures vo.Some? ==> vo.value.line == line && vo.value.origin == origin && vo.value.keyLen == keyLen
                         && vo.value.boundary == boundary && vo.value.comment == ic
    ensures vo.Some? ==> vo.value.Valid()
  {
    if rawLines.None? {
      return EINVAL, None;
    }
    var unfolded := ValueUnfold(rawLines.value);
    var obj := new ValueObj(rawLines.value, unfolded, origin, line, keyLen, boundary, ic);
    err, vo := EOK, Some(obj);
  }

  /**
   * `value_create_new`: a value object over the first `length` bytes of a
   * string, folded for the given key length and boundary. The line is not
   * known and is 0. A missing string is rejected.
   */
  method CreateNew(strvalue: Option<seq<byte>>, length: nat, origin: nat, keyLen: nat, boundary: nat,
                   ic: Option<Comment>) returns (err: Status, vo: Option<ValueObj>)
    requires strvalue.Some? ==> length <= |strvalue.value| && Foldable(strvalue.value[..length])
    ensures err == EINVAL <==> strvalue.None?
    ensures vo.Some? <==> err == EOK
    ensures vo.Some? ==> fresh(vo.value) && vo.value.unfolded == strvalue.value[..length]
                         && vo.value.rawLines == Fold(vo.value.unfolded, keyLen, boundary)
    ensures vo.Some? ==> vo.value.line == 0 && vo.value.origin == origin && vo.value.keyLen == keyLen
                         && vo.value.boundary == boundary && vo.value.comment == ic
    ensures vo.Some? ==> vo.value.Valid()
  {
    if strvalue.None? {
      return EINVAL, None;
    }
    var oneline := strvalue.value[..length];
    var rawLines := ValueFold(oneline, keyLen, boundary);
    FoldAgrees(oneline, keyLen, boundary);
    var obj := new ValueObj(rawLines, oneline, origin, 0, keyLen, boundary, ic);
    err, vo := EOK, Some(obj);
  }
}
