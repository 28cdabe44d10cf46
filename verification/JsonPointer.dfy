/** JSON Pointer, by sections 3 and 4 of RFC 6901: what a pointer evaluates to, and the
    escaping that collectors use to write one. */
module JsonPointer {
  import opened Decimal
  import opened Wrappers

  /** A decoded JSON value; a leaf is any scalar, by its printed form. */
  datatype Json = Obj(fields: map<string, Json>) | Arr(items: seq<Json>) | Leaf(value: string)

  // ---- Escaping ---------------------------------------------------------------------

  /** strings.ReplaceAll of a single character. */
  function ReplaceAll(s: string, c: char, replacement: string): string {
    if s == "" then "" else (if s[0] == c then replacement else [s[0]]) + ReplaceAll(s[1..], c, replacement)
  }

  function Escape(s: string): string {
    ReplaceAll(ReplaceAll(s, '~', "~0"), '/', "~1")
  }

  /** Every tilde starts "~0" or "~1" and no slash is left. */
  predicate WellFormed(token: string) {
    if token == "" then true
    else if token[0] == '~' then |token| > 1 && token[1] in "01" && WellFormed(token[2..])
    else token[0] != '/' && WellFormed(token[1..])
  }

  /** Replace each occurrence of tilde and that digit. */
  function ReplacePair(s: string, digit: char, replacement: char): string {
    if s == "" then ""
    else if |s| > 1 && s[0] == '~' && s[1] == digit then [replacement] + ReplacePair(s[2..], digit, replacement)
    else [s[0]] + ReplacePair(s[1..], digit, replacement)
  }

  /** Section 4: first "~1", then "~0". */
  function Unescape(token: string): string {
    ReplacePair(ReplacePair(token, '1', '/'), '0', '~')
  }

  /** One character through both replacements. */
  function Escaped(c: char): string {
    if c == '~' then "~0" else if c == '/' then "~1" else [c]
  }

  lemma {:induction false} ReplaceAllAdds(a: string, b: string, c: char, replacement: string)
    ensures ReplaceAll(a + b, c, replacement) == ReplaceAll(a, c, replacement) + ReplaceAll(b, c, replacement)
  {
    if a == "" {
      assert a + b == b;
    } else {
      assert (a + b)[1..] == a[1..] + b;
      ReplaceAllAdds(a[1..], b, c, replacement);
    }
  }

  lemma EscapeOne(c: char)
    ensures Escape([c]) == Escaped(c)
  {
    ReplaceOne(c, '~', "~0");
    ReplaceOne(c, '/', "~1");
    if c == '~' {
      ReplaceOne('~', '/', "~1");
      ReplaceOne('0', '/', "~1");
      ReplaceAllAdds("~", "0", '/', "~1");
      assert "~0" == "~" + "0";
    }
  }

  lemma ReplaceOne(x: char, c: char, replacement: string)
    ensures ReplaceAll([x], c, replacement) == if x == c then replacement else [x]
  {
    assert [x][1..] == "" && ReplaceAll("", c, replacement) == "";
  }

  lemma EscapeStep(s: string)
    requires s != ""
    ensures Escape(s) == Escaped(s[0]) + Escape(s[1..])
  {
    EscapeOne(s[0]);
    hide ReplaceAll, Escaped;
    var c, rest := [s[0]], s[1..];
    assert s == c + rest;
    ReplaceAllAdds(c, rest, '~', "~0");
    ReplaceAllAdds(ReplaceAll(c, '~', "~0"), ReplaceAll(rest, '~', "~0"), '/', "~1");
  }

  lemma UnescapeStep(c: char, rest: string)
    requires WellFormed(rest)
    ensures Unescape(Escaped(c) + rest) == [c] + Unescape(rest)
  {
    var s := Escaped(c) + rest;
    var once := ReplacePair(rest, '1', '/');
    if c == '~' {
      assert s[2..] == rest && s[1..] == "0" + rest && ("0" + rest)[1..] == rest;
      assert ReplacePair(s, '1', '/') == "~0" + once;
      assert ("~0" + once)[2..] == once;
    } else if c == '/' {
      assert s[2..] == rest;
      assert ([c] + once)[1..] == once;
    } else {
      assert s[1..] == rest;
      assert ([c] + once)[1..] == once;
    }
  }

  /** Unescaping undoes escaping, for every string; and an escaped token is well formed. */
  lemma {:induction false} EscapeRoundTrip(s: string)
    ensures WellFormed(Escape(s)) && Unescape(Escape(s)) == s
  {
    if s != "" {
      EscapeRoundTrip(s[1..]);
      EscapeStep(s);
      var rest := Escape(s[1..]);
      assert (Escaped(s[0]) + rest)[|Escaped(s[0])|..] == rest;
      UnescapeStep(s[0], rest);
    }
  }

  /** Escaping undoes unescaping, for every well-formed token. */
  lemma {:induction false} UnescapeRoundTrip(token: string)
    requires WellFormed(token)
    ensures Escape(Unescape(token)) == token
  {
    if token != "" {
      var n := if token[0] == '~' then 2 else 1;
      var c := if token[0] != '~' then token[0] else if token[1] == '0' then '~' else '/';
      var rest := token[n..];
      assert token == Escaped(c) + rest;
      UnescapeStep(c, rest);
      UnescapeRoundTrip(rest);
      var s := [c] + Unescape(rest);
      assert s[1..] == Unescape(rest);
      EscapeStep(s);
    }
  }

  lemma {:induction false} WellFormedHasNoSlash(token: string)
    requires WellFormed(token)
    ensures '/' !in token
  {
    if token != "" {
      var n := if token[0] == '~' then 2 else 1;
      WellFormedHasNoSlash(token[n..]);
      assert token == token[..n] + token[n..];
      assert forall c :: c in token <==> c in token[..n] || c in token[n..];
    }
  }

  // ---- Evaluation -------------------------------------------------------------------

  /** The member a reference token names. */
  function Member(j: Json, token: string): (r: Option<Json>)
    ensures r.Some? ==> !j.Leaf?
  {
    match j
    case Obj(fields) =>
      if WellFormed(token) && Unescape(token) in fields then Some(fields[Unescape(token)]) else None
    case Arr(items) =>
      if IsIndex(token) && Value(token) < |items| then Some(items[Value(token)]) else None
    case Leaf(_) => None
  }

  function TokenEnd(s: string): (n: nat)
    ensures n <= |s| && '/' !in s[..n] && (n < |s| ==> s[n] == '/')
  {
    if s == "" || s[0] == '/' then 0
    else
      assert forall c :: c in s[..1 + TokenEnd(s[1..])] ==> c == s[0] || c in s[1..][..TokenEnd(s[1..])];
      1 + TokenEnd(s[1..])
  }

  /** Section 4: the empty pointer is the whole document; otherwise each token in turn
      selects a member. Anything else is an error. */
  function Evaluate(j: Json, pointer: string): Option<Json>
    decreases |pointer|
  {
    if pointer == "" then Some(j)
    else if pointer[0] != '/' then None
    else
      var n := 1 + TokenEnd(pointer[1..]);
      var m := Member(j, pointer[1..n]);
      if m.None? then None else Evaluate(m.value, pointer[n..])
  }

  predicate IsTail(pointer: string) {
    pointer == "" || pointer[0] == '/'
  }

  lemma TokenEnds(token: string, rest: string)
    requires '/' !in token && IsTail(rest)
    ensures TokenEnd(token + rest) == |token|
  {
    var s := token + rest;
    var n := TokenEnd(s);
    assert forall i :: 0 <= i < |token| ==> s[i] in token;
    assert forall i :: 0 <= i < n ==> s[i] in s[..n];
    assert rest != "" ==> s[|token|] == '/';
  }

  lemma EvaluateStep(j: Json, token: string, rest: string)
    requires '/' !in token && IsTail(rest)
    ensures Evaluate(j, "/" + token + rest) ==
              if Member(j, token).None? then None else Evaluate(Member(j, token).value, rest)
  {
    var p := "/" + token + rest;
    assert p[1..] == token + rest;
    TokenEnds(token, rest);
    assert p[1..1 + |token|] == token && p[1 + |token|..] == rest;
  }

  /** A key that needs no escaping addresses its member as it stands. */
  lemma EvaluateKey(fields: map<string, Json>, key: string)
    requires key in fields && '~' !in key && '/' !in key
    ensures Evaluate(Obj(fields), "/" + key) == Some(fields[key])
  {
    PlainEscape(key);
    EscapeRoundTrip(key);
    hide Escape, Unescape, WellFormed;
    EvaluateStep(Obj(fields), key, "");
    assert "/" + key + "" == "/" + key;
  }

  lemma {:induction false} PlainEscape(s: string)
    requires '~' !in s && '/' !in s
    ensures Escape(s) == s
  {
    if s != "" {
      EscapeStep(s);
      PlainEscape(s[1..]);
      assert s == [s[0]] + s[1..];
    }
  }
}
