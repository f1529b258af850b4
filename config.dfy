// Build-time constants of the lamp firmware (include/config.h) and the
// byte type shared by the strip and the wireless decoder.
module Config {

  /** An unsigned 8-bit value. */
  type byte = x: int | 0 <= x < 256

  /** Number of pixels on the strip. */
  const NUM_LEDS: nat := 5
  /** GPIO pin of the main button (active low), also the deep-sleep wake source. */
  const BUTTON_PIN: nat := 2
  /** Debounce window of the main button, in milliseconds. */
  const DEBOUNCE_DELAY: nat := 200
}
