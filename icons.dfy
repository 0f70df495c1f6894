/** `parseIcon`: an icon name between colons. */
module Icons {
  import opened PhpStrings
  import opened Inline

  /** `parseIcon`: with icons enabled, `:`, a run of word characters
      naming a known icon, and `:`; else the marker `:` as text. The
      greedy `\w+` cannot give back characters to meet the closing colon,
      since what it gives back is a word character. */
  function ParseIcon(s: string, enableIcons: bool, iconExists: string -> bool): (r: Parsed)
    ensures r.node.Text? || r.node.Icon?
    ensures r.node.Text? ==> r == Parsed(Text(":"), 1)
    ensures r.node.Icon? ==>
      enableIcons && iconExists(r.node.name) && r.len == |r.node.name| + 2 && r.len <= |s| &&
      s[..r.len] == ":" + r.node.name + ":" && 1 <= |r.node.name| &&
      forall i :: 0 <= i < |r.node.name| ==> IsWord(r.node.name[i])
  {
    if enableIcons && |s| >= 1 && s[0] == ':' then
      var n := Span(s, 1, IsWord);
      var name := s[1..1 + n];
      if 1 <= n && 1 + n < |s| && s[1 + n] == ':' && iconExists(name) then
        assert s[..n + 2] == ":" + name + ":";
        Parsed(Icon(name), n + 2)
      else Parsed(Text(":"), 1)
    else Parsed(Text(":"), 1)
  }

  /** `:name:` reads back as the icon when icons are enabled and the icon
      exists, and as the marker otherwise. */
  lemma IconRoundTrip(name: string, rest: string, enableIcons: bool, iconExists: string -> bool)
    requires 1 <= |name| && forall i :: 0 <= i < |name| ==> IsWord(name[i])
    ensures var r := ParseIcon(":" + name + ":" + rest, enableIcons, iconExists);
      if enableIcons && iconExists(name) then r.node == Icon(name) && r.len == |name| + 2
      else r.node == Text(":") && r.len == 1
  {
    var s := ":" + name + ":" + rest;
    assert s[1..1 + |name|] == name;
    forall k | 1 <= k < 1 + |name|
      ensures IsWord(s[k])
    {
      assert s[k] == name[k - 1];
    }
    assert s[1 + |name|] == ':';
    SpanIs(s, 1, |name|, IsWord);
  }
}
