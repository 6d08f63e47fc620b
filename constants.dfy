/** The policy constants of the graduated-licensing rules. */
module Constants {

  /** Length of the new-driver period after the licence date. */
  const NewDriverPeriodYears: int := 2
  /** Full (all hours) accompaniment after the licence date. */
  const FullAccompanimentMonths: int := 3
  /** Night-only accompaniment following the full period. */
  const NightAccompanimentMonths: int := 3
  /** Full plus night accompaniment. */
  const TotalAccompanimentMonths: int := 6

  /** A driver is young while under this age (exclusive bound). */
  const YoungDriverAge: int := 24
  /** The passenger limit applies under this age (exclusive bound). */
  const PassengerLimitAge: int := 21
  /** The passenger cap when the limit applies. */
  const MaxPassengersWithLimit: int := 2
}
