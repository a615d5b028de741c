/** The polarity of an indicator and the red-yellow-green colour scales chosen
    from it. The source spells polarities as the strings 'higher_is_better' and
    'lower_is_better' and scales as Plotly scale names. */
module Palette {
  datatype Polarity = HigherIsBetter | LowerIsBetter
  datatype Scale = RdYlGn | RdYlGn_r

  /** `color_scales`: red to green when higher is better, reversed otherwise. */
  const ColorScales: map<Polarity, Scale> := map[HigherIsBetter := RdYlGn, LowerIsBetter := RdYlGn_r]

  /** `color_scales[polarity]` cannot fail, and the two polarities get different scales. */
  lemma ScalesTotal()
    ensures forall p: Polarity :: p in ColorScales
    ensures ColorScales[HigherIsBetter] != ColorScales[LowerIsBetter]
  {
    forall p: Polarity
      ensures p in ColorScales
    {
      if p.HigherIsBetter? {
        assert p == HigherIsBetter;
      } else {
        assert p == LowerIsBetter;
      }
    }
  }
}
