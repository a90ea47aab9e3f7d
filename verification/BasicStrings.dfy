/** The growable string of src/basic_string.c: a buffer with its size and a terminating NUL. */
module BasicStrings {

  class BasicString {
    var data: array<char>
    var size: nat

    ghost predicate Valid()
      reads this, data
    {
      data.Length == size + 1 && data[size] == '\0'
    }

    ghost function Text(): string
      requires Valid()
      reads this, data
    {
      data[..size]
    }

    constructor (text: string)
      ensures Valid() && Text() == text && fresh(data)
    {
      size := |text|;
      data := new char[|text| + 1](i => if 0 <= i < |text| then text[i] else '\0');
    }

    /** Appends a C string, if there is one and it is not empty. */
    method AppendRaw(src: string)
      requires Valid()
      modifies this
      ensures Valid() && Text() == old(Text()) + src && (data == old(data) || fresh(data))
    {
      if src == "" {
        return;
      }
      var len := |src|;
      var grown := new char[size + len + 1](i requires 0 <= i reads this, data requires Valid() =>
        if i < size then data[i] else if i - size < len then src[i - size] else '\0');
      data := grown;
      size := size + len;
    }
  }
}
