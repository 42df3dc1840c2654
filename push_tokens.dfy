/**
 * The database key under which a device's push token is stored
 * (helpers/notifications.ts): the token itself, with every character the
 * realtime database refuses in a key ('.', '#', '$', '[', ']') replaced by '_'.
 */
module PushTokens {

  const TokensRoot: string := "pushTokens/"

  /** The characters replaced by `token.replace(/[.#$[\]]/g, "_")`. */
  predicate IsReserved(c: char) {
    c == '.' || c == '#' || c == '$' || c == '[' || c == ']'
  }

  function SanitizeChar(c: char): (r: char)
    ensures !IsReserved(r)
    ensures IsReserved(c) ==> r == '_'
    ensures !IsReserved(c) ==> r == c
  {
    if IsReserved(c) then '_' else c
  }

  /** The replacement, one character at a time. */
  function Sanitize(token: string): (key: string)
    ensures |key| == |token|
    ensures forall i :: 0 <= i < |token| && IsReserved(token[i]) ==> key[i] == '_'
    ensures forall i :: 0 <= i < |token| && !IsReserved(token[i]) ==> key[i] == token[i]
  {
    if token == [] then [] else [SanitizeChar(token[0])] + Sanitize(token[1..])
  }

  /** The sanitised key holds none of the reserved characters. */
  lemma SanitizedHasNoReserved(token: string)
    ensures forall i :: 0 <= i < |Sanitize(token)| ==> !IsReserved(Sanitize(token)[i])
  {
  }

  lemma SanitizeIdempotent(token: string)
    ensures Sanitize(Sanitize(token)) == Sanitize(token)
  {
  }

  /** A token without reserved characters is its own key, and only such a token is. */
  lemma SanitizeFixedPoints(token: string)
    ensures Sanitize(token) == token <==> forall i :: 0 <= i < |token| ==> !IsReserved(token[i])
  {
    if Sanitize(token) == token {
      SanitizedHasNoReserved(token);
    }
  }

  /** The `ref` path the token record is written to. */
  function TokenPath(token: string): (path: string)
    ensures |path| == |TokensRoot| + |token|
    ensures path[..|TokensRoot|] == TokensRoot
    ensures forall i :: |TokensRoot| <= i < |path| ==> !IsReserved(path[i])
    ensures forall i :: |TokensRoot| <= i < |path| && !IsReserved(token[i - |TokensRoot|]) ==>
      path[i] == token[i - |TokensRoot|]
  {
    TokensRoot + Sanitize(token)
  }

  /** Two tokens share a path exactly when they share a sanitised key. */
  lemma TokenPathSameKey(a: string, b: string)
    ensures TokenPath(a) == TokenPath(b) <==> Sanitize(a) == Sanitize(b)
  {
    if TokenPath(a) == TokenPath(b) {
      assert Sanitize(a) == TokenPath(a)[|TokensRoot|..];
      assert Sanitize(b) == TokenPath(b)[|TokensRoot|..];
    }
  }

  /**
   * The key keeps one token per path, but distinct tokens can share a path: a
   * reserved character and '_' at the same place give the same key.
   */
  lemma DistinctTokensCanCollide()
    ensures "a.b" != "a_b" && TokenPath("a.b") == TokenPath("a_b")
  {
    assert Sanitize("a.b") == "a_b";
    assert Sanitize("a_b") == "a_b";
  }
}
