/**
 * The attribute type that tokens and elements carry. Its definition
 * (crate::renderer::html::attribute) is not part of this model, so it is an
 * opaque type with equality, as the Rust `PartialEq` derive requires.
 */
module HtmlAttribute {
  type Attribute(==)
}
