/**
 * Text shown on screen. Where the app formats through the locale
 * (`String.format`, `SimpleDateFormat`) the label keeps the pattern and the
 * value instead of the rendered characters.
 */
module Labels {
  datatype Label =
    | Plain(text: string)
    /** `String.format(Locale.getDefault(), pattern, value)`. */
    | Formatted(pattern: string, value: real)
    /** `SimpleDateFormat(pattern, Locale.getDefault()).format(Date(millis))`. */
    | DateText(pattern: string, millis: int)
}
