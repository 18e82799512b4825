/** The design tokens of the palette (src/constants.js) that the shoe card refers to.
    Only their identity matters to the card: the hsl strings behind them are not modelled,
    and distinct constructors stand for distinct tokens. */
module Constants {

  /** `COLORS.gray[700]`, `COLORS.gray[900]`, `COLORS.primary` and `COLORS.secondary`. */
  datatype Color = Gray700 | Gray900 | Primary | Secondary
}
