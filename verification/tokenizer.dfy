/**
 * strtok as http_server_listen uses it: a pure reading of one call on the
 * text that remains, and the in-place version that overwrites the delimiter
 * after the token with a terminator inside the receive buffer.
 */
module Tokenizer {
  import opened Wrappers
  import opened CStrings

  /** The delimiter sets of the three strtok calls on the request line. */
  const MethodDelims: set<char> := {' ', '\t', '\n'}
  const PathDelims: set<char> := {' ', '\t'}
  const ProtocolDelims: set<char> := {' ', '\t', '\n', '\r'}

  /** strspn: the length of the run of delimiters that starts s. */
  function LeadingDelims(s: string, d: set<char>): (n: nat)
    ensures n <= |s|
    ensures n < |s| ==> s[n] !in d
  {
    if s == [] || s[0] !in d then 0 else 1 + LeadingDelims(s[1..], d)
  }

  /** Every character strspn skips is a delimiter. */
  lemma {:induction false} LeadingDelimsSkipped(s: string, d: set<char>)
    ensures forall i :: 0 <= i < LeadingDelims(s, d) ==> s[i] in d
  {
    if s != [] && s[0] in d {
      LeadingDelimsSkipped(s[1..], d);
      assert forall i :: 1 <= i < LeadingDelims(s, d) ==> s[i] == s[1..][i - 1];
    }
  }

  /** strcspn: the length of the run of non-delimiters that starts s. */
  function TokenLength(s: string, d: set<char>): (n: nat)
    ensures n <= |s|
    ensures n < |s| ==> s[n] in d
  {
    if s == [] || s[0] in d then 0 else 1 + TokenLength(s[1..], d)
  }

  /** No character strcspn counts is a delimiter. */
  lemma {:induction false} TokenLengthClear(s: string, d: set<char>)
    ensures forall i :: 0 <= i < TokenLength(s, d) ==> s[i] !in d
  {
    if s != [] && s[0] !in d {
      TokenLengthClear(s[1..], d);
      assert forall i :: 1 <= i < TokenLength(s, d) ==> s[i] == s[1..][i - 1];
    }
  }

  /** The token one strtok call returns (None for NULL) and the text it resumes from next time. */
  datatype Split = Split(token: Option<CString>, rest: CString)

  /**
   * One strtok call on the remaining text s: skip leading delimiters; at the
   * end return NULL and stay at the end; otherwise the token runs to the next
   * delimiter, which is overwritten, and the next call resumes after it.
   */
  function Strtok(s: CString, d: set<char>): (r: Split)
    ensures r.token.None? ==> r.rest == []
    ensures r.token.Some? ==> r.token.value != [] && |r.token.value| + |r.rest| < |s| + 1
  {
    var k := LeadingDelims(s, d);
    if k == |s| then Split(None, [])
    else
      var n := TokenLength(s[k..], d);
      if k + n == |s| then Split(Some(s[k..]), [])
      else Split(Some(s[k..k + n]), s[k + n + 1..])
  }

  /** strtok finds no token exactly when the text is delimiters only. */
  lemma StrtokNoneIff(s: CString, d: set<char>)
    ensures Strtok(s, d).token.None? <==> forall i :: 0 <= i < |s| ==> s[i] in d
  {
    LeadingDelimsSkipped(s, d);
  }

  /** The token strtok returns holds no delimiter. */
  lemma StrtokTokenClear(s: CString, d: set<char>)
    requires Strtok(s, d).token.Some?
    ensures var tok := Strtok(s, d).token.value;
            forall i :: 0 <= i < |tok| ==> tok[i] !in d
  {
    var k := LeadingDelims(s, d);
    var tok := Strtok(s, d).token.value;
    TokenLengthClear(s[k..], d);
    forall i | 0 <= i < |tok|
      ensures tok[i] !in d
    {
      assert tok[i] == s[k..][i];
    }
  }

  /**
   * The text is put back together from the skipped delimiters, the token and,
   * when the token ended at a delimiter, that delimiter and the rest.
   */
  lemma StrtokReconstructs(s: CString, d: set<char>)
    requires Strtok(s, d).token.Some?
    ensures var r := Strtok(s, d);
            var k := LeadingDelims(s, d);
            s == s[..k] + r.token.value + r.rest
            || exists c :: c in d && s == s[..k] + r.token.value + [c] + r.rest
  {
    var r := Strtok(s, d);
    var k := LeadingDelims(s, d);
    var n := TokenLength(s[k..], d);
    if k + n == |s| {
      assert s == s[..k] + r.token.value + r.rest;
    } else {
      var c := s[k + n];
      assert c == s[k..][n] && c in d;
      assert s == s[..k] + r.token.value + [c] + r.rest;
    }
  }

  /** A run of non-delimiters followed by a delimiter or by nothing is exactly that long. */
  lemma {:induction false} TokenLengthOf(tok: string, rest: string, d: set<char>)
    requires forall i :: 0 <= i < |tok| ==> tok[i] !in d
    requires rest == [] || rest[0] in d
    ensures TokenLength(tok + rest, d) == |tok|
  {
    if tok != [] {
      assert (tok + rest)[1..] == tok[1..] + rest;
      TokenLengthOf(tok[1..], rest, d);
    }
  }

  /** A token without delimiters, then one delimiter: strtok returns the token and resumes after the delimiter. */
  lemma StrtokOfToken(tok: CString, c: char, rest: CString, d: set<char>)
    requires tok != [] && forall i :: 0 <= i < |tok| ==> tok[i] !in d
    requires c in d && c != NUL
    ensures NUL !in tok + [c] + rest
    ensures Strtok(tok + [c] + rest, d) == Split(Some(tok), rest)
  {
    var s := tok + [c] + rest;
    assert s == tok + ([c] + rest);
    TokenLengthOf(tok, [c] + rest, d);
    assert s[..|tok|] == tok && s[|tok| + 1..] == rest;
  }

  /** A last token without delimiters: strtok returns it and resumes at the end. */
  lemma StrtokOfLastToken(tok: CString, d: set<char>)
    requires tok != [] && forall i :: 0 <= i < |tok| ==> tok[i] !in d
    ensures Strtok(tok, d) == Split(Some(tok), [])
  {
    TokenLengthOf(tok, [], d);
    assert tok + [] == tok;
  }

  /** A token followed by a delimiter or by nothing is what strtok returns. */
  lemma StrtokOfFinalToken(tok: CString, rest: CString, d: set<char>)
    requires tok != [] && forall i :: 0 <= i < |tok| ==> tok[i] !in d
    requires rest == [] || (rest[0] in d && rest[0] != NUL)
    ensures NUL !in tok + rest
    ensures Strtok(tok + rest, d).token == Some(tok)
  {
    if rest == [] {
      StrtokOfLastToken(tok, d);
      assert tok + rest == tok;
    } else {
      StrtokOfToken(tok, rest[0], rest[1..], d);
      assert tok + rest == tok + [rest[0]] + rest[1..];
    }
  }

  /** Once strtok has returned NULL, every later call returns NULL too. */
  lemma MissingTokenStaysMissing(s: CString, d: set<char>, e: set<char>)
    requires Strtok(s, d).token.None?
    ensures Strtok(Strtok(s, d).rest, e) == Split(None, [])
  {
  }

  /**
   * Where the next strtok call resumes in s: at the end when there is no
   * token or the text ends it, otherwise just after the delimiter that ends it.
   */
  function Resume(s: CString, d: set<char>): nat {
    var r := Strtok(s, d);
    if r.token.None? then |s|
    else
      var e := LeadingDelims(s, d) + |r.token.value|;
      if e == |s| then e else e + 1
  }

  /** The call ends its token by overwriting a delimiter with a terminator. */
  predicate Cuts(s: CString, d: set<char>) {
    var r := Strtok(s, d);
    r.token.Some? && LeadingDelims(s, d) + |r.token.value| < |s|
  }

  /**
   * What strtok leaves for the next call is the text from where it resumes;
   * when it cuts, the overwritten delimiter is the character just before.
   */
  lemma {:induction false} ResumeRest(s: CString, d: set<char>)
    ensures Resume(s, d) <= |s|
    ensures Strtok(s, d).rest == s[Resume(s, d)..]
    ensures Cuts(s, d) ==> 0 < Resume(s, d) && s[Resume(s, d) - 1] in d
  {
    var k := LeadingDelims(s, d);
    if k < |s| {
      var n := TokenLength(s[k..], d);
      assert k + n < |s| ==> s[k..][n] == s[k + n];
    }
  }

  /**
   * Where one call finds things in its text s: k delimiters are skipped, the
   * token (if any) is the n characters after them, and the call resumes just
   * after them, or one further when it cuts at the delimiter that follows.
   */
  lemma {:induction false} StrtokLayout(s: CString, d: set<char>) returns (n: nat)
    ensures LeadingDelims(s, d) + n <= |s|
    ensures Strtok(s, d).token.None? ==> LeadingDelims(s, d) == |s| && n == 0
    ensures Strtok(s, d).token.Some? ==>
              Strtok(s, d).token == Some(s[LeadingDelims(s, d)..LeadingDelims(s, d) + n])
    ensures Cuts(s, d) <==> LeadingDelims(s, d) + n < |s|
    ensures Resume(s, d) == if Cuts(s, d) then LeadingDelims(s, d) + n + 1 else LeadingDelims(s, d) + n
    ensures Strtok(s, d).rest == s[Resume(s, d)..]
  {
    var k := LeadingDelims(s, d);
    if k == |s| {
      n := 0;
    } else {
      n := TokenLength(s[k..], d);
      assert k + n < |s| ==> s[k..][n] == s[k + n];
      assert k + n == |s| ==> s[k..] == s[k..k + n];
    }
  }

  /** A buffer holding a C string from pos holds its characters and then a terminator. */
  lemma BufferHolds(a: seq<char>, pos: nat)
    requires pos <= |a| && NUL in a[pos..]
    ensures var s := CStr(a[pos..]);
            pos + |s| < |a| && a[pos..pos + |s|] == s && a[pos + |s|] == NUL
  {
    CStrTerminatorInside(a[pos..]);
    assert a[pos..][..|CStr(a[pos..])|] == a[pos..pos + |CStr(a[pos..])|];
  }

  /**
   * A buffer a holds the text s from pos. Another buffer b agrees with a on
   * the part of s from x up to y and has a terminator at y: read from x, b
   * holds s[x..y].
   */
  lemma {:induction false} ReadBack(a: seq<char>, b: seq<char>, pos: nat, s: CString, x: nat, y: nat)
    requires pos + |s| < |a| && a[pos..pos + |s|] == s
    requires x <= y <= |s| && pos + y < |b| && b[pos + y] == NUL
    requires forall i :: pos + x <= i < pos + y ==> b[i] == a[i]
    ensures NUL in b[pos + x..] && CStr(b[pos + x..]) == s[x..y]
    ensures y == |s| ==> CStr(b[pos + x..]) == s[x..]
  {
    var t := s[x..y];
    forall i | 0 <= i < |t|
      ensures b[pos + x..][i] == t[i]
    {
      assert a[pos..pos + |s|][x + i] == a[pos + x + i];
    }
    assert b[pos + x..][..|t|] == t;
    assert b[pos + x..][|t|] == NUL;
    CStrUnique(b[pos + x..], t);
    assert y == |s| ==> t == s[x..];
  }

  /**
   * How a buffer goes from a to b when a call that resumes at next cuts (or
   * not) and returns token starting at st: read from next, b holds rest; a
   * cut turns the character just before next into a terminator and changes
   * nothing else; without a cut nothing changes; a token reads back as a
   * C string from st.
   */
  ghost predicate CutEffect(a: seq<char>, b: seq<char>, pos: nat, st: nat, next: nat,
                            token: Option<CString>, rest: CString, cut: bool)
  {
    && pos <= next <= |b| && NUL in b[next..] && CStr(b[next..]) == rest
    && (cut ==> pos < next <= |a| && b == a[next - 1 := NUL])
    && (!cut ==> b == a)
    && (token.Some? ==> st < next && CStr(b[st..]) == token.value)
  }

  /**
   * The buffer after a call that found the text s at pos, skipped k
   * characters and took n (the token, when there is one), and resumes r
   * characters into s: one further than the token when it cuts, since the
   * character after the token then becomes a terminator.
   */
  lemma {:induction false} CutInBuffer(a: seq<char>, pos: nat, s: CString, k: nat, n: nat, cut: bool, r: nat,
                                       token: Option<CString>)
    returns (b: seq<char>)
    requires pos + |s| < |a| && a[pos..pos + |s|] == s && a[pos + |s|] == NUL
    requires k + n <= |s| && (cut <==> k + n < |s|)
    requires r == if cut then k + n + 1 else k + n
    requires token.Some? ==> 0 < n && token.value == s[k..k + n]
    ensures CutEffect(a, b, pos, pos + k, pos + r, token, s[r..], cut)
  {
    if cut {
      b := a[pos + k + n := NUL];
      ReadBack(a, b, pos, s, r, |s|);
      ReadBack(a, b, pos, s, k, k + n);
    } else {
      b := a;
      ReadBack(a, b, pos, s, r, |s|);
      ReadBack(a, b, pos, s, k, k + n);
    }
  }

  /**
   * What one strtok call on the text s, held from pos in a buffer whose
   * contents go from a to b, leaves behind when it returns token and saves
   * next: the token strtok finds, and the buffer changed as CutEffect says,
   * the token starting after the skipped delimiters.
   */
  ghost predicate StrtokEffect(s: CString, a: seq<char>, b: seq<char>, pos: nat, d: set<char>,
                               token: Option<CString>, next: nat)
  {
    && token == Strtok(s, d).token
    && CutEffect(a, b, pos, pos + LeadingDelims(s, d), next, token, Strtok(s, d).rest, Cuts(s, d))
  }

  /**
   * One strtok call on a buffer a that holds the text s from pos, as the
   * buffer b it leaves.
   */
  lemma {:induction false} StrtokOnBuffer(a: seq<char>, pos: nat, s: CString, d: set<char>) returns (b: seq<char>)
    requires pos + |s| < |a| && a[pos..pos + |s|] == s && a[pos + |s|] == NUL
    ensures StrtokEffect(s, a, b, pos, d, Strtok(s, d).token, pos + Resume(s, d))
  {
    var n := StrtokLayout(s, d);
    b := CutInBuffer(a, pos, s, LeadingDelims(s, d), n, Cuts(s, d), Resume(s, d), Strtok(s, d).token);
  }

  /**
   * strtok on the receive buffer from index pos (0 for the first call, the
   * saved position for later ones). The token is returned as the text it
   * denotes once the call has written its terminator; next is the saved
   * position. The buffer changes as StrtokEffect says: at most the delimiter
   * just before next, which becomes a terminator.
   */
  method StrtokInPlace(buf: array<char>, pos: nat, d: set<char>) returns (token: Option<CString>, next: nat)
    requires pos <= buf.Length && NUL in buf[pos..]
    modifies buf
    ensures pos <= next <= buf.Length && NUL in buf[next..]
    ensures Split(token, CStr(buf[next..])) == Strtok(CStr(old(buf[pos..])), d)
    ensures StrtokEffect(CStr(old(buf[pos..])), old(buf[..]), buf[..], pos, d, token, next)
  {
    ghost var a := buf[..];
    assert buf[pos..] == a[pos..];
    var s := CStr(buf[pos..]);
    token := Strtok(s, d).token;
    next := pos + Resume(s, d);
    BufferHolds(a, pos);
    ghost var b := StrtokOnBuffer(a, pos, s, d);
    if Cuts(s, d) {
      buf[next - 1] := NUL;
    }
    assert buf[..] == b;
  }
}
