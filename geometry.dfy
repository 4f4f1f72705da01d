/** The rectangle the browser reports for an element (`getBoundingClientRect()`), in pixels. */
module Geometry {
  datatype ClientRect = ClientRect(left: real, top: real, right: real, bottom: real, width: real, height: real)
}
