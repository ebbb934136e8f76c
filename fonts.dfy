/** The style markers a buffer can hold (src/editor/fonts.rs). Only the tag
    matters here; colours and sizes belong to the theme. */
module Fonts {

  datatype Font =
    | Normal
    | Bold
    | Italic
    | BoldItalic
    | Comment
    | Number
    | String
    | Keyword
    | Variable
    | Function
    | Structure
}
