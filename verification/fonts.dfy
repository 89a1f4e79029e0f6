/** Font fallback for rendering (ReportGenerationService.java, lines
    294-305). The physical font store is a map from family name to font. */
module Fonts {

  /** The family used when a requested one is not installed. */
  const Fallback: string := "Times New Roman"

  /** The mapping `populateFontMappings` builds: each requested family goes
      to the physical font of that name, else to the fallback font, else
      gets no entry. */
  function ResolveFonts<F>(requested: set<string>, store: map<string, F>): (m: map<string, F>)
    ensures m.Keys <= requested
    ensures forall n | n in requested :: n in m <==> (n in store || Fallback in store)
  {
    map n | n in requested && (n in store || Fallback in store) ::
      if n in store then store[n] else store[Fallback]
  }

  /** The one-level fallback: a family the store has maps to itself, and
      when the fallback family is missing too, nothing else gets mapped. */
  lemma FallbackIsOneLevel<F>(requested: set<string>, store: map<string, F>, n: string)
    requires n in requested
    ensures n in store ==> ResolveFonts(requested, store)[n] == store[n]
    ensures n !in store && Fallback !in store ==> n !in ResolveFonts(requested, store)
    ensures n !in store && Fallback in store ==> ResolveFonts(requested, store)[n] == store[Fallback]
  {
  }

  /** `populateFontMappings`, one requested family at a time. */
  method PopulateFontMappings<F>(requested: set<string>, store: map<string, F>) returns (m: map<string, F>)
    ensures m == ResolveFonts(requested, store)
  {
    m := map[];
    var todo := requested;
    while todo != {}
      invariant todo <= requested
      invariant m == ResolveFonts(requested - todo, store)
      decreases |todo|
    {
      var name :| name in todo;
      if name in store {
        m := m[name := store[name]];
      } else if Fallback in store {
        m := m[name := store[Fallback]];
      }
      todo := todo - {name};
    }
  }
}
