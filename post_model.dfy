/** The Post document: a required author, text trimmed on assignment,
    optional image and linked hairstyle, and the list of users who like it. */
module PostModel {
  import opened Common

  datatype Post = Post(
    author: Id,
    text: Option<string>,
    imageUrl: Option<string>,
    linkedHairstyle: Option<Id>,
    likes: seq<Id>,
    createdAt: nat)  // the timestamp the database stamps on creation

  /** White space and line terminators as JavaScript's `String.prototype.trim` knows them. */
  predicate IsSpace(c: char)
  {
    c == ' ' || c == '\t' || c == '\n' || c == '\r' || c == '\U{000B}' || c == '\U{000C}'
    || c == '\U{00A0}' || c == '\U{1680}' || ('\U{2000}' <= c <= '\U{200A}')
    || c == '\U{2028}' || c == '\U{2029}' || c == '\U{202F}' || c == '\U{205F}'
    || c == '\U{3000}' || c == '\U{FEFF}'
  }

  /** Drops the leading white space. */
  function TrimStart(s: string): (r: string)
    ensures |r| <= |s|
  {
    if s != [] && IsSpace(s[0]) then TrimStart(s[1..]) else s
  }

  /** TrimStart leaves a suffix that does not start with white space, and
      only white space was dropped. */
  lemma {:induction false} TrimStartDropsSpace(s: string)
    ensures var r := TrimStart(s);
      r == s[|s| - |r|..] && (r == [] || !IsSpace(r[0]))
      && forall i :: 0 <= i < |s| - |r| ==> IsSpace(s[i])
  {
    if s != [] && IsSpace(s[0]) {
      TrimStartDropsSpace(s[1..]);
      var r := TrimStart(s);
      forall i | 0 <= i < |s| - |r|
        ensures IsSpace(s[i])
      {
        if i > 0 {
          assert s[i] == s[1..][i - 1];
        }
      }
    }
  }

  /** Drops the trailing white space. */
  function TrimEnd(s: string): (r: string)
    ensures |r| <= |s|
  {
    if s != [] && IsSpace(s[|s| - 1]) then TrimEnd(s[..|s| - 1]) else s
  }

  /** TrimEnd leaves a prefix that does not end with white space, and only
      white space was dropped. */
  lemma {:induction false} TrimEndDropsSpace(s: string)
    ensures var r := TrimEnd(s);
      r == s[..|r|] && (r == [] || !IsSpace(r[|r| - 1]))
      && forall i :: |r| <= i < |s| ==> IsSpace(s[i])
  {
    if s != [] && IsSpace(s[|s| - 1]) {
      TrimEndDropsSpace(s[..|s| - 1]);
      var r := TrimEnd(s);
      forall i | |r| <= i < |s|
        ensures IsSpace(s[i])
      {
        if i < |s| - 1 {
          assert s[i] == s[..|s| - 1][i];
        }
      }
    }
  }

  /** No white space at either end. */
  predicate Trimmed(s: string)
  {
    s == [] || (!IsSpace(s[0]) && !IsSpace(s[|s| - 1]))
  }

  /** `String.prototype.trim`. */
  function Trim(s: string): (r: string)
    ensures Trimmed(r)
  {
    TrimStartDropsSpace(s);
    TrimEndDropsSpace(TrimStart(s));
    var r := TrimEnd(TrimStart(s));
    assert r != [] ==> r[0] == TrimStart(s)[0];
    r
  }

  /** The strings `trim` leaves alone are exactly the trimmed ones. */
  lemma TrimmedIff(s: string)
    ensures Trimmed(s) <==> Trim(s) == s
  {
    if Trimmed(s) {
      assert TrimStart(s) == s;
      assert TrimEnd(s) == s;
    }
  }

  /** A trimmed string is its own trim: storing the text again keeps it. */
  lemma TrimIdempotent(s: string)
    ensures Trim(Trim(s)) == Trim(s)
  {
    TrimmedIff(Trim(s));
  }

  /** `s` is white space, then `r` starting at index `i`, then white space. */
  ghost predicate PaddedInfix(s: string, i: nat, r: string)
  {
    i + |r| <= |s| && s[i..i + |r|] == r
    && (forall k :: 0 <= k < i ==> IsSpace(s[k]))
    && (forall k :: i + |r| <= k < |s| ==> IsSpace(s[k]))
  }

  /** Trimming removes white space only: the trimmed text sits in `s` at
      `|s| - |TrimStart(s)|`, with only white space around it. */
  lemma TrimIsInfix(s: string)
    ensures PaddedInfix(s, |s| - |TrimStart(s)|, Trim(s))
  {
    InfixAt(s);
  }

  /** The two trimming steps, pointwise. */
  lemma InfixAt(s: string)
    ensures PaddedInfix(s, |s| - |TrimStart(s)|, TrimEnd(TrimStart(s)))
  {
    var front := TrimStart(s);
    var r := TrimEnd(front);
    TrimStartDropsSpace(s);
    TrimEndDropsSpace(front);
    var i := |s| - |front|;
    forall k | 0 <= k < |r|
      ensures s[i + k] == r[k]
    {
      assert r[k] == front[k];
    }
    assert s[i..i + |r|] == r;
    forall k | i + |r| <= k < |s|
      ensures IsSpace(s[k])
    {
      assert s[k] == front[k - i];
    }
  }

  /** The stored text is trimmed: the schema's `trim` applies on every assignment. */
  predicate Valid(p: Post)
  {
    p.text.Some? ==> Trimmed(p.text.value)
  }

  /** The text as the `trim` setter stores it. */
  function StoredText(text: Option<string>): (r: Option<string>)
    ensures r.Some? <==> text.Some?
    ensures r.Some? ==> Trimmed(r.value) && r.value == Trim(text.value)
  {
    if text.Some? then Some(Trim(text.value)) else None
  }

  datatype PostDraft = PostDraft(
    author: Option<Id>,
    text: Option<string>,
    imageUrl: Option<string>,
    linkedHairstyle: Option<Id>,
    likes: Option<seq<Id>>)

  /** `Post.create`: the author is required, the text is trimmed, likes
      default to the empty list; `now` is the creation timestamp. */
  function Validate(d: PostDraft, now: nat): (r: Option<Post>)
    ensures r.Some? <==> d.author.Some?
    ensures r.Some? ==> Valid(r.value)
    ensures r.Some? ==>
      r.value.author == d.author.value && r.value.text == StoredText(d.text)
      && r.value.imageUrl == d.imageUrl && r.value.linkedHairstyle == d.linkedHairstyle
      && r.value.createdAt == now
    ensures r.Some? ==> r.value.likes == (if d.likes.Some? then d.likes.value else [])
  {
    if d.author.Some? then
      Some(Post(d.author.value, StoredText(d.text), d.imageUrl, d.linkedHairstyle,
                if d.likes.Some? then d.likes.value else [], now))
    else
      None
  }
}
