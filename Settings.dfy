/** The option values of the speed and grid-size menus and the settings they
    select. Both mappings are total: an unrecognised level falls back to a
    default instead of failing. */
module Settings {

  /** Interval between generations, in milliseconds. */
  const SlowMs: nat := 800
  const MediumMs: nat := 500
  const FastMs: nat := 100

  /** Grid size at start-up. */
  const DefaultRows: nat := 30
  const DefaultCols: nat := 50

  /** The interval chosen by a speed option: "1" slow, "2" medium, "3" fast,
      and anything else (the "Speed" placeholder "0" included) fast. */
  function SpeedFor(level: string): (ms: nat)
    ensures ms in {SlowMs, MediumMs, FastMs}
    ensures ms == SlowMs <==> level == "1"
    ensures ms == MediumMs <==> level == "2"
    ensures ms == FastMs <==> level != "1" && level != "2"
  {
    match level
    case "1" => SlowMs
    case "2" => MediumMs
    case "3" => FastMs
    case _ => FastMs
  }

  /** The (rows, cols) chosen by a grid-size option: "1" 10 x 20, "2" 30 x 50,
      "3" 50 x 70, and anything else the default 30 x 50. */
  function GridFor(level: string): (dims: (nat, nat))
    ensures dims.0 > 0 && dims.1 > 0
    ensures dims == (10, 20) <==> level == "1"
    ensures dims == (50, 70) <==> level == "3"
    ensures dims == (DefaultRows, DefaultCols) <==> level != "1" && level != "3"
  {
    match level
    case "1" => (10, 20)
    case "2" => (30, 50)
    case "3" => (50, 70)
    case _ => (DefaultRows, DefaultCols)
  }
}
