/** How one element of an argument vector is recognised as a switch. */
module Switches {
  import opened Text

  const TERMINATOR := "--"

  /** The length of the longest switch prefix of `s`.  The slash counts only while the process has
      not called `set_slash_is_not_a_switch`. */
  function PrefixLength(s: string, slash: bool): (n: nat)
    ensures n <= IndexOf(s, '=')
  {
    if "--" <= s then 2 else if "-" <= s then 1 else if slash && "/" <= s then 1 else 0
  }

  predicate IsSwitch(s: string, slash: bool) {
    0 < PrefixLength(s, slash) < |s|
  }

  /** The part before the first `=`, prefix included. */
  function SwitchName(s: string): string {
    s[..IndexOf(s, '=')]
  }

  predicate HasEquals(s: string) {
    IndexOf(s, '=') < |s|
  }

  function SwitchValue(s: string): string {
    if HasEquals(s) then s[IndexOf(s, '=') + 1..] else ""
  }

  lemma SwitchParts(s: string)
    ensures HasEquals(s) ==> s == SwitchName(s) + ("=" + SwitchValue(s))
    ensures !HasEquals(s) ==> s == SwitchName(s) && SwitchValue(s) == ""
  {
  }

  /** The key a switch is filed under: its name without the prefix. */
  function SwitchKey(s: string, slash: bool): string {
    s[PrefixLength(s, slash)..IndexOf(s, '=')]
  }

  /** What a switch is: a dash with something behind it that is not just a second dash, or a slash with
      something behind it where the slash counts. */
  lemma SwitchesAre(s: string, slash: bool)
    ensures IsSwitch(s, slash)
       <==> |s| > 1 && ((s[0] == '-' && s != "--") || (slash && s[0] == '/'))
  {
  }

  /** What it is made of: a prefix, the longest one, then the key, then its value behind the first `=`. */
  lemma SwitchIsPrefixKeyValue(s: string, slash: bool) returns (prefix: string)
    requires IsSwitch(s, slash)
    ensures prefix == "--" || prefix == "-" || (slash && prefix == "/")
    ensures s == prefix + SwitchKey(s, slash) + (if HasEquals(s) then "=" + SwitchValue(s) else "")
    ensures '=' !in SwitchKey(s, slash) && (HasEquals(s) <==> '=' in s)
    ensures prefix == "-" ==> s[1] != '-'
  {
    var n, k := PrefixLength(s, slash), IndexOf(s, '=');
    prefix := s[..n];
    SwitchParts(s);
    assert s[..k] == s[..n] + s[n..k];
    assert forall j :: n <= j < k ==> s[j] == s[..k][j];
    assert forall j :: 0 <= j < k - n ==> s[n..k][j] == s[..k][n + j];
    if HasEquals(s) {
      assert s[k] == '=';
      assert s == (s[..n] + s[n..k]) + ("=" + SwitchValue(s));
    } else {
      assert s[..k] == s && s[..n] + s[n..k] + "" == s[..k];
    }
  }
}
