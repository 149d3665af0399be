/**
 * formatHex: the result view's text for a list of byte texts. Every entry is upper-cased and
 * left-padded to two characters, followed by a space, with a line break after every eighth entry;
 * the whole text is then trimmed as String.prototype.trim does.
 */
module Format {
  import opened TextUtil

  /** The characters String.prototype.trim removes: white space and line terminators. */
  predicate IsJsWhitespace(c: char)
  {
    c == '\t' || c == '\n' || c == '\U{000B}' || c == '\U{000C}' || c == '\r' || c == ' ' ||
    c == '\U{00A0}' || c == '\U{1680}' || ('\U{2000}' <= c <= '\U{200A}') ||
    c == '\U{2028}' || c == '\U{2029}' || c == '\U{202F}' || c == '\U{205F}' ||
    c == '\U{3000}' || c == '\U{FEFF}'
  }

  predicate AllWhitespace(s: string)
  {
    forall i :: 0 <= i < |s| ==> IsJsWhitespace(s[i])
  }

  /** Drops the leading white space: what is left is a suffix that is empty or starts with a non-space. */
  function TrimStart(s: string): (r: string)
    ensures |r| <= |s|
    ensures forall i :: 0 <= i < |s| - |r| ==> IsJsWhitespace(s[i])
    ensures r == [] || !IsJsWhitespace(r[0])
  {
    if s != [] && IsJsWhitespace(s[0]) then TrimStart(s[1..]) else s
  }

  /** Drops the trailing white space: what is left is a prefix that is empty or ends with a non-space. */
  function TrimEnd(s: string): (r: string)
    ensures |r| <= |s| && forall i :: 0 <= i < |r| ==> r[i] == s[i]
    ensures forall i :: |r| <= i < |s| ==> IsJsWhitespace(s[i])
    ensures r == [] || !IsJsWhitespace(r[|r| - 1])
  {
    if s != [] && IsJsWhitespace(s[|s| - 1]) then TrimEnd(s[..|s| - 1]) else s
  }

  /** s.trim() */
  function Trim(s: string): string
  {
    TrimEnd(TrimStart(s))
  }

  /** Trimming leaves no white space at either end and removes only white space. */
  lemma TrimEdges(s: string)
    ensures var r := Trim(s);
      r == [] || (!IsJsWhitespace(r[0]) && !IsJsWhitespace(r[|r| - 1]))
    ensures exists a, b :: (0 <= a <= b <= |s| && Trim(s) == s[a..b] &&
      AllWhitespace(s[..a]) && AllWhitespace(s[b..]))
  {
    var t := TrimStart(s);
    var r := TrimEnd(t);
    var a := |s| - |t|;
    var b := a + |r|;
    TrimStartSuffix(s);
    TrimEndPrefix(t);
    SlicesOfSuffix(s, a, |r|);
    assert AllWhitespace(s[..a]);
    assert AllWhitespace(t[|r|..]);
  }

  /** What TrimEnd leaves is the prefix of s of its length. */
  lemma TrimEndPrefix(s: string)
    ensures TrimEnd(s) == s[..|TrimEnd(s)|]
  {
  }

  lemma SlicesOfSuffix(s: string, a: nat, m: nat)
    requires a + m <= |s|
    ensures s[a..][..m] == s[a..a + m] && s[a..][m..] == s[a + m..]
  {
  }

  /** What TrimStart leaves is the suffix of s of its length. */
  lemma {:induction false} TrimStartSuffix(s: string)
    ensures TrimStart(s) == s[|s| - |TrimStart(s)|..]
    decreases |s|
  {
    if s != [] && IsJsWhitespace(s[0]) {
      TrimStartSuffix(s[1..]);
      assert s[1..][|s| - 1 - |TrimStart(s)|..] == s[|s| - |TrimStart(s)|..];
    }
  }

  /** Trimming text that already starts and ends with a non-space changes nothing. */
  lemma TrimKeeps(s: string)
    requires s != [] && !IsJsWhitespace(s[0]) && !IsJsWhitespace(s[|s| - 1])
    ensures Trim(s) == s
  {
  }

  /** Trimming text that ends with white space trims the text before it. */
  lemma {:induction false} TrimEndDrops(s: string, w: string)
    requires AllWhitespace(w)
    ensures TrimEnd(s + w) == TrimEnd(s)
    decreases |w|
  {
    if w != [] {
      assert (s + w)[..|s + w| - 1] == s + w[..|w| - 1];
      TrimEndDrops(s, w[..|w| - 1]);
    } else {
      assert s + w == s;
    }
  }

  /** bytes[i].toUpperCase().padStart(2, '0') */
  function Token(b: string): (r: string)
    ensures |r| >= 2
  {
    PadStart(Upper(b), 2, '0')
  }

  /** A header or payload entry (two digits, no lower case) is printed unchanged. */
  lemma TokenOfByte(b: string)
    requires |b| == 2 && NoLowerCase(b)
    ensures Token(b) == b
  {
    UpperIdentity(b);
  }

  /** What follows the token of entry i: a space, and a line break after every eighth entry. */
  function Separator(i: nat): (r: string)
    ensures AllWhitespace(r) && r != []
  {
    if (i + 1) % 8 == 0 then " \n" else " "
  }

  /** The text formatHex builds before trimming. */
  function Raw(bytes: seq<string>): string
  {
    if bytes == [] then []
    else Raw(bytes[..|bytes| - 1]) + Token(bytes[|bytes| - 1]) + Separator(|bytes| - 1)
  }

  /** formatHex */
  method FormatHex(bytes: seq<string>) returns (r: string)
    ensures r == Trim(Raw(bytes))
  {
    var result := "";
    var i := 0;
    while i < |bytes|
      invariant 0 <= i <= |bytes|
      invariant result == Raw(bytes[..i])
    {
      RawStep(bytes, i);
      var hexByte := PadStart(Upper(bytes[i]), 2, '0');
      ghost var before := result;
      result := result + hexByte + " ";
      if (i + 1) % 8 == 0 {
        LineBreakAfterSpace(before, hexByte);
        result := result + "\n";
      }
      i := i + 1;
    }
    assert bytes[..i] == bytes;
    r := Trim(result);
  }

  /** One more entry appends its token and its separator to the raw text. */
  lemma RawStep(bytes: seq<string>, i: nat)
    requires i < |bytes|
    ensures Raw(bytes[..i + 1]) == Raw(bytes[..i]) + Token(bytes[i]) + Separator(i)
  {
    assert bytes[..i + 1][..i] == bytes[..i];
  }

  lemma LineBreakAfterSpace(a: string, t: string)
    ensures a + t + " " + "\n" == a + t + " \n"
  {
  }

  /** Nothing to show gives the empty text. */
  lemma FormatEmpty()
    ensures Trim(Raw([])) == ""
  {
  }

  /**
   * When every entry prints without white space (two-digit bytes do), the output is every token
   * followed by its separator, except that the last separator is trimmed away.
   */
  lemma FormatDropsLastSeparator(bytes: seq<string>)
    requires bytes != []
    requires forall i :: 0 <= i < |bytes| ==> NoWhitespace(Token(bytes[i]))
    ensures Trim(Raw(bytes)) == Raw(bytes[..|bytes| - 1]) + Token(bytes[|bytes| - 1])
  {
    var n := |bytes|;
    var last := Token(bytes[n - 1]);
    var body := Raw(bytes[..n - 1]) + last;
    assert Raw(bytes) == body + Separator(n - 1);
    RawStartsWithToken(bytes);
    assert NoWhitespace(Token(bytes[0]));
    TrimStartKeeps(Raw(bytes));
    TrimEndDrops(body, Separator(n - 1));
    assert NoWhitespace(last);
    LastOfAppend(Raw(bytes[..n - 1]), last);
    TrimEndKeeps(body);
  }

  lemma LastOfAppend(a: string, b: string)
    requires b != []
    ensures a + b != [] && (a + b)[|a + b| - 1] == b[|b| - 1]
  {
  }

  lemma TrimStartKeeps(s: string)
    requires s != [] && !IsJsWhitespace(s[0])
    ensures TrimStart(s) == s
  {
  }

  lemma TrimEndKeeps(s: string)
    requires s != [] && !IsJsWhitespace(s[|s| - 1])
    ensures TrimEnd(s) == s
  {
  }

  predicate NoWhitespace(s: string)
  {
    forall i :: 0 <= i < |s| ==> !IsJsWhitespace(s[i])
  }

  /** The raw text of a non-empty list starts with the first character of the first token. */
  lemma {:induction false} RawStartsWithToken(bytes: seq<string>)
    requires bytes != []
    ensures Raw(bytes) != [] && Raw(bytes)[0] == Token(bytes[0])[0]
  {
    var n := |bytes|;
    var init := bytes[..n - 1];
    if n > 1 {
      RawStartsWithToken(init);
      assert init[0] == bytes[0];
      var a := Raw(init);
      assert Raw(bytes) == a + Token(bytes[n - 1]) + Separator(n - 1);
      assert (a + Token(bytes[n - 1]) + Separator(n - 1))[0] == a[0];
    } else {
      assert Raw(bytes) == Raw(init) + Token(bytes[0]) + Separator(0);
      assert Raw(init) == [];
    }
  }

  /** The raw text of n entries holds exactly one line break per full group of eight. */
  lemma {:induction false} RawLineBreaks(bytes: seq<string>)
    requires forall i :: 0 <= i < |bytes| ==> NoWhitespace(Token(bytes[i]))
    ensures LineBreaks(Raw(bytes)) == |bytes| / 8
  {
    if bytes != [] {
      var n := |bytes|;
      var init := bytes[..n - 1];
      var a, t, sep := Raw(init), Token(bytes[n - 1]), Separator(n - 1);
      RawStep(bytes, n - 1);
      assert bytes[..n] == bytes;
      assert forall i :: 0 <= i < |init| ==> init[i] == bytes[i];
      RawLineBreaks(init);
      LineBreaksAppend(a, t);
      LineBreaksAppend(a + t, sep);
      NoBreaksInToken(t);
      assert LineBreaks(Raw(bytes)) == (n - 1) / 8 + LineBreaks(sep);
      SeparatorCounts(n);
    }
  }

  /** The separator after entry n - 1 holds a line break exactly when n completes a group of eight. */
  lemma SeparatorCounts(n: nat)
    requires n >= 1
    ensures (n - 1) / 8 + LineBreaks(Separator(n - 1)) == n / 8
  {
    SeparatorBreaks(n - 1);
    DivStep(n - 1);
  }

  lemma SeparatorBreaks(i: nat)
    ensures LineBreaks(Separator(i)) == if (i + 1) % 8 == 0 then 1 else 0
  {
    assert " \n"[..1] == " ";
    assert " "[..0] == [];
  }

  lemma DivStep(m: nat)
    ensures (m + 1) / 8 == m / 8 + (if (m + 1) % 8 == 0 then 1 else 0)
  {
  }

  /** The number of line feeds in s. */
  function LineBreaks(s: string): nat
  {
    if s == [] then 0 else LineBreaks(s[..|s| - 1]) + (if s[|s| - 1] == '\n' then 1 else 0)
  }

  lemma {:induction false} LineBreaksAppend(s: string, t: string)
    ensures LineBreaks(s + t) == LineBreaks(s) + LineBreaks(t)
    decreases |t|
  {
    if t != [] {
      assert (s + t)[..|s + t| - 1] == s + t[..|t| - 1];
      LineBreaksAppend(s, t[..|t| - 1]);
    } else {
      assert s + t == s;
    }
  }

  lemma {:induction false} NoBreaksInToken(t: string)
    requires NoWhitespace(t)
    ensures LineBreaks(t) == 0
    decreases |t|
  {
    if t != [] {
      NoBreaksInToken(t[..|t| - 1]);
    }
  }
}
