/** The two-step sanitization every untrusted string goes through in the
    controllers: strip markup with `cleanXSS`, then escape with
    `escapeSpecialCharacters`.

    `cleanXSS` (src/utils/sanitize.ts) delegates to the sanitize-html library,
    whose behaviour is not part of this model; it is passed in as `clean`, and
    everything proved here holds whatever function it is. */
module Sanitization {
  import opened Escaping

  predicate MarkupFree(s: string) {
    forall i :: 0 <= i < |s| ==> !IsMarkup(s[i])
  }

  /** `escapeSpecialCharacters(cleanXSS(s))`: no markup character survives,
      and decoding the entities gives back exactly what `clean` produced. */
  function Sanitize(clean: string -> string, s: string): (r: string)
    ensures MarkupFree(r)
    ensures Unescape(r) == clean(s)
    ensures !HasSpecial(clean(s)) ==> r == clean(s)
  {
    var stripped := clean(s);
    EscapeHasNoMarkup(stripped);
    EscapeRoundTrip(stripped);
    EscapeFixedPoints(stripped);
    EscapeSpecialCharacters(stripped)
  }
}
