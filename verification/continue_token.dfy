/**
 * Continue tokens of paginated LISTs. A token carries the API version
 * "meta.k8s.io/v1", the resource version the list started at and the key
 * to resume from, relative to the key prefix of the request. Decoding
 * validates the three fields and rejects a start key that is not already in
 * clean form (path.Clean), so that a client cannot climb above the prefix.
 * The token's JSON and base64url encoding is not modelled: the decoded
 * record is the input of decoding and the output of encoding.
 */
module ContinueToken {

  import opened Wrappers
  import opened Strs

  const TokenVersion: string := "meta.k8s.io/v1"

  /** The decoded token. */
  datatype Token = Token(apiVersion: string, resourceVersion: int, startKey: string)

  /** The four error values callers compare against with errors.Is. */
  datatype ContinueError =
    | UnrecognizedEncodedVersion
    | InvalidStartRV
    | EmptyStartKey
    | GenericInvalidKey

  /** What DecodeContinue returns: the key to list from, the resource version and the error. */
  datatype Decoded = Decoded(fromKey: string, rv: int, err: Option<ContinueError>)

  // ---------------------------------------------------------------------
  // path.Clean on rooted paths
  // ---------------------------------------------------------------------

  /** A segment that clean form keeps as it is: not empty, not "." and not "..". */
  predicate NormalSegment(seg: string)
  {
    seg != "" && seg != "." && seg != ".." && '/' !in seg
  }

  /**
   * Lexical processing of the segments after the root: empty and "."
   * segments vanish, ".." removes the segment before it (and nothing at the
   * root), any other segment is kept.
   */
  function Resolve(stack: seq<string>, segs: seq<string>): (r: seq<string>)
    requires forall i | 0 <= i < |stack| :: NormalSegment(stack[i])
    requires forall i | 0 <= i < |segs| :: '/' !in segs[i]
    ensures forall i | 0 <= i < |r| :: NormalSegment(r[i])
    decreases |segs|
  {
    if |segs| == 0 then stack
    else if segs[0] == "" || segs[0] == "." then Resolve(stack, segs[1..])
    else if segs[0] == ".." then Resolve(if |stack| > 0 then stack[..|stack| - 1] else stack, segs[1..])
    else Resolve(stack + [segs[0]], segs[1..])
  }

  /** path.Clean of a path that starts with "/". */
  function CleanRooted(p: string): (c: string)
    requires HasPrefix(p, "/")
    ensures HasPrefix(c, "/")
  {
    var segs := Resolve([], Split(p[1..], '/'));
    "/" + Join(segs, '/')
  }

  /** Resolving never lengthens the segment list beyond the stack plus the input. */
  lemma {:induction false} ResolveLength(stack: seq<string>, segs: seq<string>)
    requires forall i | 0 <= i < |stack| :: NormalSegment(stack[i])
    requires forall i | 0 <= i < |segs| :: '/' !in segs[i]
    ensures |Resolve(stack, segs)| <= |stack| + |segs|
    ensures |Resolve(stack, segs)| == |stack| + |segs| ==>
      forall i | 0 <= i < |segs| :: NormalSegment(segs[i])
    decreases |segs|
  {
    if |segs| > 0 {
      if segs[0] == "" || segs[0] == "." {
        ResolveLength(stack, segs[1..]);
      } else if segs[0] == ".." {
        ResolveLength(if |stack| > 0 then stack[..|stack| - 1] else stack, segs[1..]);
      } else {
        ResolveLength(stack + [segs[0]], segs[1..]);
        assert forall i | 1 <= i < |segs| :: segs[i] == segs[1..][i - 1];
      }
    }
  }

  /**
   * A rooted path that path.Clean leaves unchanged is "/" itself or a
   * sequence of normal segments: it has no empty, "." or ".." segment.
   */
  lemma CleanFixedPoint(p: string)
    requires HasPrefix(p, "/") && CleanRooted(p) == p
    ensures p == "/" || forall i | 0 <= i < |Split(p[1..], '/')| :: NormalSegment(Split(p[1..], '/')[i])
  {
    var segs := Split(p[1..], '/');
    var out := Resolve([], segs);
    assert p == "/" + Join(out, '/');
    assert p[1..] == Join(out, '/');
    if |out| == 0 {
      assert p == "/";
    } else {
      SplitJoin(out, '/');
      assert segs == out;
      ResolveLength([], segs);
    }
  }

  // ---------------------------------------------------------------------
  // Decoding and encoding
  // ---------------------------------------------------------------------

  /** The start key made absolute: a leading "/" is added when it is missing. */
  function Rooted(key: string): (r: string)
    ensures HasPrefix(r, "/")
  {
    if HasPrefix(key, "/") then key else "/" + key
  }

  /** DecodeContinue on an already decoded token. */
  function DecodeContinue(t: Token, keyPrefix: string): (d: Decoded)
    ensures d.err.Some? ==> d.fromKey == "" && d.rv == 0
    ensures d.err == Some(UnrecognizedEncodedVersion) <==> t.apiVersion != TokenVersion
    ensures d.err == Some(InvalidStartRV) <==> t.apiVersion == TokenVersion && t.resourceVersion == 0
    ensures d.err == Some(EmptyStartKey) <==>
      t.apiVersion == TokenVersion && t.resourceVersion != 0 && t.startKey == ""
    ensures d.err == Some(GenericInvalidKey) <==>
      t.apiVersion == TokenVersion && t.resourceVersion != 0 && t.startKey != ""
      && CleanRooted(Rooted(t.startKey)) != Rooted(t.startKey)
    ensures d.err.None? ==> d.rv == t.resourceVersion && d.rv != 0
    ensures d.err.None? ==> d.fromKey == keyPrefix + Rooted(t.startKey)[1..]
  {
    if t.apiVersion != TokenVersion then Decoded("", 0, Some(UnrecognizedEncodedVersion))
    else if t.resourceVersion == 0 then Decoded("", 0, Some(InvalidStartRV))
    else if |t.startKey| == 0 then Decoded("", 0, Some(EmptyStartKey))
    else
      var key := Rooted(t.startKey);
      var cleaned := CleanRooted(key);
      if cleaned != key then Decoded("", 0, Some(GenericInvalidKey))
      else Decoded(keyPrefix + cleaned[1..], t.resourceVersion, None)
  }

  /**
   * A successfully decoded key never reaches outside the prefix: it is the
   * prefix followed by nothing or by normal segments only, so no ".." or
   * "." segment survives decoding.
   */
  lemma DecodedKeyStaysUnderPrefix(t: Token, keyPrefix: string)
    requires DecodeContinue(t, keyPrefix).err.None?
    ensures HasPrefix(DecodeContinue(t, keyPrefix).fromKey, keyPrefix)
    ensures var rest := DecodeContinue(t, keyPrefix).fromKey[|keyPrefix|..];
      rest == "" || forall i | 0 <= i < |Split(rest, '/')| :: NormalSegment(Split(rest, '/')[i])
  {
    var key := Rooted(t.startKey);
    var d := DecodeContinue(t, keyPrefix);
    assert d.fromKey == keyPrefix + key[1..];
    assert d.fromKey[..|keyPrefix|] == keyPrefix;
    assert d.fromKey[|keyPrefix|..] == key[1..];
    CleanFixedPoint(key);
  }

  /**
   * A start key with an empty, "." or ".." segment after rooting is
   * rejected as an invalid key, unless it is the root itself.
   */
  lemma AbnormalSegmentRejected(t: Token, keyPrefix: string, i: nat)
    requires t.apiVersion == TokenVersion && t.resourceVersion != 0 && t.startKey != ""
    requires Rooted(t.startKey) != "/"
    requires i < |Split(Rooted(t.startKey)[1..], '/')| && !NormalSegment(Split(Rooted(t.startKey)[1..], '/')[i])
    ensures DecodeContinue(t, keyPrefix) == Decoded("", 0, Some(GenericInvalidKey))
  {
    var key := Rooted(t.startKey);
    if CleanRooted(key) == key {
      CleanFixedPoint(key);
    }
  }

  /** The accepted rows of the decoding table, under the prefix "/test/". */
  lemma DecodeValidRows()
    ensures DecodeContinue(Token(TokenVersion, 1, "key"), "/test/") == Decoded("/test/key", 1, None)
    ensures DecodeContinue(Token(TokenVersion, 1, "/"), "/test/") == Decoded("/test/", 1, None)
  {
    assert Split("key", '/') == ["key"];
    NormalKeyIsClean("key");
    assert Split("", '/') == [""];
    assert CleanRooted("/") == "/";
  }

  /** The rows of the decoding table rejected before the key is looked at. */
  lemma DecodeFieldErrorRows()
    ensures DecodeContinue(Token("", 1, "key"), "/test/").err == Some(UnrecognizedEncodedVersion)
    ensures DecodeContinue(Token("v1", 1, "key"), "/test/").err == Some(UnrecognizedEncodedVersion)
    ensures DecodeContinue(Token(TokenVersion, 0, "key"), "/test/").err == Some(InvalidStartRV)
    ensures DecodeContinue(Token(TokenVersion, 1, ""), "/test/").err == Some(EmptyStartKey)
  {
  }

  /** The path-traversal rows of the decoding table. */
  lemma DecodeTraversalRows()
    ensures DecodeContinue(Token(TokenVersion, 1, "../key"), "/test/").err == Some(GenericInvalidKey)
    ensures DecodeContinue(Token(TokenVersion, 1, "./key"), "/test/").err == Some(GenericInvalidKey)
    ensures DecodeContinue(Token(TokenVersion, 1, "./../key"), "/test/").err == Some(GenericInvalidKey)
    ensures DecodeContinue(Token(TokenVersion, 1, "key/../.."), "/test/").err == Some(GenericInvalidKey)
  {
    ParentRow();
    LocalRow();
    LocalParentRow();
    ParentAfterKeyRow();
  }

  lemma ParentRow()
    ensures DecodeContinue(Token(TokenVersion, 1, "../key"), "/test/").err == Some(GenericInvalidKey)
  {
    TraversalRow("../key", 2, "..");
  }

  lemma LocalRow()
    ensures DecodeContinue(Token(TokenVersion, 1, "./key"), "/test/").err == Some(GenericInvalidKey)
  {
    TraversalRow("./key", 1, ".");
  }

  lemma LocalParentRow()
    ensures DecodeContinue(Token(TokenVersion, 1, "./../key"), "/test/").err == Some(GenericInvalidKey)
  {
    TraversalRow("./../key", 1, ".");
  }

  /** "key/../.." climbs above the root with its second segment. */
  lemma ParentAfterKeyRow()
    ensures DecodeContinue(Token(TokenVersion, 1, "key/../.."), "/test/").err == Some(GenericInvalidKey)
  {
    SecondSegmentParent("key/../..", 3);
  }

  /** A key whose second segment is ".." is rejected. */
  lemma SecondSegmentParent(k: string, j: nat)
    requires j + 3 < |k| && k[j] == '/' && '/' !in k[..j] && k[0] != '/'
    requires k[j + 1] == '.' && k[j + 2] == '.' && k[j + 3] == '/'
    ensures DecodeContinue(Token(TokenVersion, 1, k), "/test/").err == Some(GenericInvalidKey)
  {
    var rest := k[j + 1..];
    assert rest[..2] == "..";
    RootedRelative(k);
    SplitAtFirst(k, j);
    SplitAtFirst(rest, 2);
    assert Split(k, '/')[1] == "..";
    AbnormalSegmentRejected(Token(TokenVersion, 1, k), "/test/", 1);
  }

  /** A relative key whose first separator is at j has its first piece before j. */
  lemma TraversalRow(k: string, j: nat, first: string)
    requires j < |k| && k[j] == '/' && '/' !in k[..j] && k[..j] == first && k[0] != '/'
    ensures Rooted(k) == "/" + k && Rooted(k)[1..] == k
    ensures Split(k, '/') == [first] + Split(k[j + 1..], '/')
    ensures first == ".." || first == "." ==>
      DecodeContinue(Token(TokenVersion, 1, k), "/test/").err == Some(GenericInvalidKey)
  {
    RootedRelative(k);
    SplitAtFirst(k, j);
    if first == ".." || first == "." {
      AbnormalSegmentRejected(Token(TokenVersion, 1, k), "/test/", 0);
    }
  }

  /** A key that does not start with "/" is rooted by prefixing one. */
  lemma RootedRelative(k: string)
    requires |k| > 0 && k[0] != '/'
    ensures Rooted(k) == "/" + k && Rooted(k)[1..] == k
  {
    assert ("/" + k)[1..] == k;
  }

  /** Splitting at the first separator. */
  lemma SplitAtFirst(k: string, j: nat)
    requires j < |k| && k[j] == '/' && '/' !in k[..j]
    ensures Split(k, '/') == [k[..j]] + Split(k[j + 1..], '/')
  {
    assert IndexOf(k, '/') == Some(j);
  }

  /** strings.TrimPrefix. */
  function TrimPrefix(s: string, prefix: string): (r: string)
    ensures HasPrefix(s, prefix) ==> s == prefix + r
    ensures !HasPrefix(s, prefix) ==> r == s
  {
    if HasPrefix(s, prefix) then
      assert s == prefix + s[|prefix|..];
      s[|prefix|..]
    else s
  }

  datatype EncodeError = KeyPrefixMismatch

  /**
   * EncodeContinue: the key relative to the prefix, which must be a
   * proper, non-empty trim (an empty prefix trims nothing and is refused).
   */
  function EncodeContinue(key: string, keyPrefix: string, rv: int): (r: Result<Token, EncodeError>)
    ensures r.Success? <==> HasPrefix(key, keyPrefix) && keyPrefix != ""
    ensures r.Success? ==>
      r.value.apiVersion == TokenVersion && r.value.resourceVersion == rv && key == keyPrefix + r.value.startKey
  {
    var next := TrimPrefix(key, keyPrefix);
    if next == key then
      assert HasPrefix(key, keyPrefix) ==> keyPrefix == "";
      Failure(KeyPrefixMismatch)
    else
      Success(Token(TokenVersion, rv, next))
  }

  /**
   * Decoding an encoded token gives back the key and the resource version,
   * when the version is not 0 and the relative key is a non-empty run of
   * normal segments that does not start with "/".
   */
  lemma EncodeDecodeRoundTrip(key: string, keyPrefix: string, rv: int)
    requires EncodeContinue(key, keyPrefix, rv).Success?
    requires rv != 0
    requires var next := key[|keyPrefix|..];
      next != "" && forall i | 0 <= i < |Split(next, '/')| :: NormalSegment(Split(next, '/')[i])
    ensures DecodeContinue(EncodeContinue(key, keyPrefix, rv).value, keyPrefix) == Decoded(key, rv, None)
  {
    var t := EncodeContinue(key, keyPrefix, rv).value;
    var next := t.startKey;
    assert next == key[|keyPrefix|..];
    NormalKeyIsClean(next);
  }

  /** A relative key made of normal segments is unchanged by rooting and cleaning. */
  lemma NormalKeyIsClean(next: string)
    requires next != ""
    requires forall i | 0 <= i < |Split(next, '/')| :: NormalSegment(Split(next, '/')[i])
    ensures Rooted(next) == "/" + next
    ensures CleanRooted("/" + next) == "/" + next
  {
    var segs := Split(next, '/');
    assert NormalSegment(segs[0]);
    SplitLeadingSeparator(next, '/');
    assert !HasPrefix(next, "/");
    assert ("/" + next)[1..] == next;
    ResolveNormal([], segs);
    assert Resolve([], segs) == segs;
    JoinSplit(next, '/');
  }

  /** A string that starts with the separator splits into an empty first piece. */
  lemma SplitLeadingSeparator(s: string, sep: char)
    ensures |s| > 0 && s[0] == sep ==> Split(s, sep)[0] == ""
  {
    if |s| > 0 && s[0] == sep {
      assert IndexOf(s, sep) == Some(0);
    }
  }

  /** Resolving only normal segments keeps them all. */
  lemma {:induction false} ResolveNormal(stack: seq<string>, segs: seq<string>)
    requires forall i | 0 <= i < |stack| :: NormalSegment(stack[i])
    requires forall i | 0 <= i < |segs| :: NormalSegment(segs[i]) && '/' !in segs[i]
    ensures Resolve(stack, segs) == stack + segs
    decreases |segs|
  {
    if |segs| > 0 {
      assert forall i | 0 <= i < |segs[1..]| :: segs[1..][i] == segs[i + 1];
      ResolveNormal(stack + [segs[0]], segs[1..]);
      assert stack + [segs[0]] + segs[1..] == stack + segs;
    }
  }

  // ---------------------------------------------------------------------
  // PrepareContinueToken
  // ---------------------------------------------------------------------

  /** What PrepareContinueToken returns: the token, the remaining-item count and the error. */
  datatype Prepared = Prepared(token: Option<Token>, remaining: Option<int>, err: Option<EncodeError>)

  /**
   * PrepareContinueToken: when more items exist, a token resuming just
   * after the last key (the key followed by a NUL character) and, for an
   * empty predicate only, the count of items beyond the limit, never
   * negative.
   */
  function PrepareContinueToken(keyLastItem: string, keyPrefix: string, rv: int, itemsCount: int,
                                hasMoreItems: bool, predicateEmpty: bool, limit: int): (p: Prepared)
    ensures !hasMoreItems ==> p == Prepared(None, None, None)
    ensures hasMoreItems && p.err.None? ==>
      p.token == Some(Token(TokenVersion, rv, TrimPrefix(keyLastItem + "\0", keyPrefix)))
    ensures p.err.Some? <==> hasMoreItems && !(HasPrefix(keyLastItem + "\0", keyPrefix) && keyPrefix != "")
    ensures p.err.Some? ==> p.token == None && p.remaining == None
    ensures p.remaining.Some? <==> hasMoreItems && p.err.None? && predicateEmpty
    ensures p.remaining.Some? ==> p.remaining.value >= 0
    ensures p.remaining.Some? && itemsCount >= limit ==> p.remaining.value == itemsCount - limit
    ensures p.remaining.Some? && itemsCount < limit ==> p.remaining.value == 0
  {
    if !hasMoreItems then Prepared(None, None, None)
    else
      match EncodeContinue(keyLastItem + "\0", keyPrefix, rv)
      case Failure(e) => Prepared(None, None, Some(e))
      case Success(t) =>
        var remaining := itemsCount - limit;
        Prepared(Some(t), if predicateEmpty then Some(if remaining < 0 then 0 else remaining) else None, None)
  }

  /** The rows of the large-limit test: a limit of 50000 leaves 0 of 1000 items and 10000 of 60000. */
  lemma LargeLimitRows()
    ensures PrepareContinueToken("lastKey", "lastKey", 1, 1000, true, true, 50000).token.Some?
    ensures PrepareContinueToken("lastKey", "lastKey", 1, 1000, true, true, 50000).remaining == Some(0)
    ensures PrepareContinueToken("lastKey", "lastKey", 1, 60000, true, true, 50000).token.Some?
    ensures PrepareContinueToken("lastKey", "lastKey", 1, 60000, true, true, 50000).remaining == Some(10000)
  {
    assert HasPrefix("lastKey" + "\0", "lastKey");
  }
}
