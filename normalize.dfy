/** normalize_text and process: turning a raw (name, email) row into the
    keys the scorer compares. */
module Normalize {
  import opened Text

  /** The steps that depend on Unicode tables, taken as given string maps:
      `fold` is NFKD decomposition, then removal of combining marks, then
      str.casefold(); `lower` is str.lower(). */
  datatype Unicode = Unicode(fold: string -> string, lower: string -> string)

  /** normalize_text: an empty input gives ""; otherwise punctuation is
      deleted, the Unicode fold applied and whitespace collapsed, so the
      result is well spaced and a second collapse leaves it unchanged. */
  function NormalizeText(s: string, u: Unicode): (r: string)
    ensures s == "" ==> r == ""
    ensures WellSpaced(r)
    ensures Collapse(r) == r
  {
    if s == "" then ""
    else
      var folded := u.fold(StripPunctuation(s));
      CollapseWellSpaced(folded);
      CollapseIdempotent(folded);
      Collapse(folded)
  }

  /** The index of the first '@' in s, or |s| when there is none. */
  function FirstAt(s: string): (n: nat)
    ensures n <= |s|
    ensures forall i :: 0 <= i < n ==> s[i] != '@'
    ensures n < |s| ==> s[n] == '@'
  {
    if s == [] || s[0] == '@' then 0 else 1 + FirstAt(s[1..])
  }

  /** The local part of an email: the text before its first '@', or the
      whole email when it has none. */
  function LocalPart(email: string): string {
    if '@' in email then email[..FirstAt(email)] else email
  }

  /** The local part is a prefix of the email with no '@' in it; when the email
      contains '@' the first '@' follows it directly, and otherwise it is the
      whole email. */
  lemma LocalPartSpec(email: string)
    ensures var p := LocalPart(email);
            p <= email && '@' !in p &&
            ('@' in email ==> |p| < |email| && email[|p|] == '@') &&
            ('@' !in email ==> p == email)
  {
    var p := LocalPart(email);
    if '@' in email {
      assert p == email[..FirstAt(email)];
    }
  }

  /** The six values process returns. */
  datatype Identity = Identity(
    name: string, first: string, last: string, initial: string, email: string, prefix: string)

  /** process(dev): dev[0] is the display name and dev[1] the email; a row
      with fewer than two fields raises in the source, hence the requires. */
  function Process(dev: seq<string>, u: Unicode): (id: Identity)
    requires |dev| >= 2
    ensures WellSpaced(id.name) && id.name == NormalizeText(dev[0], u)
    ensures id.email == u.lower(Strip(dev[1]))
    ensures id.prefix <= id.email && '@' !in id.prefix
    ensures '@' in id.email ==> id.email[|id.prefix|] == '@'
    ensures '@' !in id.email ==> id.prefix == id.email
    ensures id.first == "" <==> Split(id.name) == []
    ensures id.first != "" ==> id.first == Split(id.name)[0] && IsWord(id.first)
    ensures id.last != "" <==> |Split(id.name)| >= 2
    ensures id.last != "" ==> id.last == Split(id.name)[|Split(id.name)| - 1] && IsWord(id.last)
    ensures id.initial == "" <==> id.first == ""
    ensures id.first != "" ==> id.initial == [id.first[0]]
  {
    var name := NormalizeText(dev[0], u);
    var email := u.lower(Strip(dev[1]));
    var prefix := LocalPart(email);
    var parts := Split(name);
    var first := if |parts| >= 1 then parts[0] else "";
    var last := if |parts| > 1 then parts[|parts| - 1] else "";
    var initial := if first != "" then [first[0]] else "";
    Identity(name, first, last, initial, email, prefix)
  }
}
