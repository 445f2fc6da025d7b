/** `android.widget.ImageView.ScaleType`: the eight ways a view fits its content. */
module ScaleTypes {

  datatype ScaleType =
    | MATRIX
    | FIT_XY
    | FIT_START
    | FIT_CENTER
    | FIT_END
    | CENTER
    | CENTER_CROP
    | CENTER_INSIDE
}
