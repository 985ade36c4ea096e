/** The special bytes of the KISS host/TNC protocol (Chepponis & Karn, 1987). */
module KissConstants {
  import opened Bytes

  /** Frame end: delimits every frame. */
  const Fend: byte := 0xC0
  /** Frame escape: introduces a transposed special byte. */
  const Fesc: byte := 0xDB
  /** Transposed frame end: `Fesc, Tfend` stands for a data byte `Fend`. */
  const Tfend: byte := 0xDC
  /** Transposed frame escape: `Fesc, Tfesc` stands for a data byte `Fesc`. */
  const Tfesc: byte := 0xDD
}
