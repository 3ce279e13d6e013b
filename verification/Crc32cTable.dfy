/** The CRC-32C table of src/common/xq_crc32c.c:13-57, selected by binary decisions on the index. */
module Crc32cTable {

  function Tab0(i: bv32): bv32 {
    if i < 8 then (
      if i < 4 then (
        if i < 2 then (if i < 1 then 0x00000000 else 0xF26B8303) else if i < 3 then 0xE13B70F7 else 0x1350F3F4
      ) else (
        if i < 6 then (if i < 5 then 0xC79A971F else 0x35F1141C) else if i < 7 then 0x26A1E7E8 else 0xD4CA64EB
      )
    ) else (
      if i < 12 then (
        if i < 10 then (if i < 9 then 0x8AD958CF else 0x78B2DBCC) else if i < 11 then 0x6BE22838 else 0x9989AB3B
      ) else (
        if i < 14 then (if i < 13 then 0x4D43CFD0 else 0xBF284CD3) else if i < 15 then 0xAC78BF27 else 0x5E133C24
      )
    )
  }

  function Tab1(i: bv32): bv32 {
    if i < 24 then (
      if i < 20 then (
        if i < 18 then (if i < 17 then 0x105EC76F else 0xE235446C) else if i < 19 then 0xF165B798 else 0x030E349B
      ) else (
        if i < 22 then (if i < 21 then 0xD7C45070 else 0x25AFD373) else if i < 23 then 0x36FF2087 else 0xC494A384
      )
    ) else (
      if i < 28 then (
        if i < 26 then (if i < 25 then 0x9A879FA0 else 0x68EC1CA3) else if i < 27 then 0x7BBCEF57 else 0x89D76C54
      ) else (
        if i < 30 then (if i < 29 then 0x5D1D08BF else 0xAF768BBC) else if i < 31 then 0xBC267848 else 0x4E4DFB4B
      )
    )
  }

  function Tab2(i: bv32): bv32 {
    if i < 40 then (
      if i < 36 then (
        if i < 34 then (if i < 33 then 0x20BD8EDE else 0xD2D60DDD) else if i < 35 then 0xC186FE29 else 0x33ED7D2A
      ) else (
        if i < 38 then (if i < 37 then 0xE72719C1 else 0x154C9AC2) else if i < 39 then 0x061C6936 else 0xF477EA35
      )
    ) else (
      if i < 44 then (
        if i < 42 then (if i < 41 then 0xAA64D611 else 0x580F5512) else if i < 43 then 0x4B5FA6E6 else 0xB93425E5
      ) else (
        if i < 46 then (if i < 45 then 0x6DFE410E else 0x9F95C20D) else if i < 47 then 0x8CC531F9 else 0x7EAEB2FA
      )
    )
  }

  function Tab3(i: bv32): bv32 {
    if i < 56 then (
      if i < 52 then (
        if i < 50 then (if i < 49 then 0x30E349B1 else 0xC288CAB2) else if i < 51 then 0xD1D83946 else 0x23B3BA45
      ) else (
        if i < 54 then (if i < 53 then 0xF779DEAE else 0x05125DAD) else if i < 55 then 0x1642AE59 else 0xE4292D5A
      )
    ) else (
      if i < 60 then (
        if i < 58 then (if i < 57 then 0xBA3A117E else 0x4851927D) else if i < 59 then 0x5B016189 else 0xA96AE28A
      ) else (
        if i < 62 then (if i < 61 then 0x7DA08661 else 0x8FCB0562) else if i < 63 then 0x9C9BF696 else 0x6EF07595
      )
    )
  }

  function Tab4(i: bv32): bv32 {
    if i < 72 then (
      if i < 68 then (
        if i < 66 then (if i < 65 then 0x417B1DBC else 0xB3109EBF) else if i < 67 then 0xA0406D4B else 0x522BEE48
      ) else (
        if i < 70 then (if i < 69 then 0x86E18AA3 else 0x748A09A0) else if i < 71 then 0x67DAFA54 else 0x95B17957
      )
    ) else (
      if i < 76 then (
        if i < 74 then (if i < 73 then 0xCBA24573 else 0x39C9C670) else if i < 75 then 0x2A993584 else 0xD8F2B687
      ) else (
        if i < 78 then (if i < 77 then 0x0C38D26C else 0xFE53516F) else if i < 79 then 0xED03A29B else 0x1F682198
      )
    )
  }

  function Tab5(i: bv32): bv32 {
    if i < 88 then (
      if i < 84 then (
        if i < 82 then (if i < 81 then 0x5125DAD3 else 0xA34E59D0) else if i < 83 then 0xB01EAA24 else 0x42752927
      ) else (
        if i < 86 then (if i < 85 then 0x96BF4DCC else 0x64D4CECF) else if i < 87 then 0x77843D3B else 0x85EFBE38
      )
    ) else (
      if i < 92 then (
        if i < 90 then (if i < 89 then 0xDBFC821C else 0x2997011F) else if i < 91 then 0x3AC7F2EB else 0xC8AC71E8
      ) else (
        if i < 94 then (if i < 93 then 0x1C661503 else 0xEE0D9600) else if i < 95 then 0xFD5D65F4 else 0x0F36E6F7
      )
    )
  }

  function Tab6(i: bv32): bv32 {
    if i < 104 then (
      if i < 100 then (
        if i < 98 then (if i < 97 then 0x61C69362 else 0x93AD1061) else if i < 99 then 0x80FDE395 else 0x72966096
      ) else (
        if i < 102 then (if i < 101 then 0xA65C047D else 0x5437877E) else if i < 103 then 0x4767748A else 0xB50CF789
      )
    ) else (
      if i < 108 then (
        if i < 106 then (if i < 105 then 0xEB1FCBAD else 0x197448AE) else if i < 107 then 0x0A24BB5A else 0xF84F3859
      ) else (
        if i < 110 then (if i < 109 then 0x2C855CB2 else 0xDEEEDFB1) else if i < 111 then 0xCDBE2C45 else 0x3FD5AF46
      )
    )
  }

  function Tab7(i: bv32): bv32 {
    if i < 120 then (
      if i < 116 then (
        if i < 114 then (if i < 113 then 0x7198540D else 0x83F3D70E) else if i < 115 then 0x90A324FA else 0x62C8A7F9
      ) else (
        if i < 118 then (if i < 117 then 0xB602C312 else 0x44694011) else if i < 119 then 0x5739B3E5 else 0xA55230E6
      )
    ) else (
      if i < 124 then (
        if i < 122 then (if i < 121 then 0xFB410CC2 else 0x092A8FC1) else if i < 123 then 0x1A7A7C35 else 0xE811FF36
      ) else (
        if i < 126 then (if i < 125 then 0x3CDB9BDD else 0xCEB018DE) else if i < 127 then 0xDDE0EB2A else 0x2F8B6829
      )
    )
  }

  function Tab8(i: bv32): bv32 {
    if i < 136 then (
      if i < 132 then (
        if i < 130 then (if i < 129 then 0x82F63B78 else 0x709DB87B) else if i < 131 then 0x63CD4B8F else 0x91A6C88C
      ) else (
        if i < 134 then (if i < 133 then 0x456CAC67 else 0xB7072F64) else if i < 135 then 0xA457DC90 else 0x563C5F93
      )
    ) else (
      if i < 140 then (
        if i < 138 then (if i < 137 then 0x082F63B7 else 0xFA44E0B4) else if i < 139 then 0xE9141340 else 0x1B7F9043
      ) else (
        if i < 142 then (if i < 141 then 0xCFB5F4A8 else 0x3DDE77AB) else if i < 143 then 0x2E8E845F else 0xDCE5075C
      )
    )
  }

  function Tab9(i: bv32): bv32 {
    if i < 152 then (
      if i < 148 then (
        if i < 146 then (if i < 145 then 0x92A8FC17 else 0x60C37F14) else if i < 147 then 0x73938CE0 else 0x81F80FE3
      ) else (
        if i < 150 then (if i < 149 then 0x55326B08 else 0xA759E80B) else if i < 151 then 0xB4091BFF else 0x466298FC
      )
    ) else (
      if i < 156 then (
        if i < 154 then (if i < 153 then 0x1871A4D8 else 0xEA1A27DB) else if i < 155 then 0xF94AD42F else 0x0B21572C
      ) else (
        if i < 158 then (if i < 157 then 0xDFEB33C7 else 0x2D80B0C4) else if i < 159 then 0x3ED04330 else 0xCCBBC033
      )
    )
  }

  function TabA(i: bv32): bv32 {
    if i < 168 then (
      if i < 164 then (
        if i < 162 then (if i < 161 then 0xA24BB5A6 else 0x502036A5) else if i < 163 then 0x4370C551 else 0xB11B4652
      ) else (
        if i < 166 then (if i < 165 then 0x65D122B9 else 0x97BAA1BA) else if i < 167 then 0x84EA524E else 0x7681D14D
      )
    ) else (
      if i < 172 then (
        if i < 170 then (if i < 169 then 0x2892ED69 else 0xDAF96E6A) else if i < 171 then 0xC9A99D9E else 0x3BC21E9D
      ) else (
        if i < 174 then (if i < 173 then 0xEF087A76 else 0x1D63F975) else if i < 175 then 0x0E330A81 else 0xFC588982
      )
    )
  }

  function TabB(i: bv32): bv32 {
    if i < 184 then (
      if i < 180 then (
        if i < 178 then (if i < 177 then 0xB21572C9 else 0x407EF1CA) else if i < 179 then 0x532E023E else 0xA145813D
      ) else (
        if i < 182 then (if i < 181 then 0x758FE5D6 else 0x87E466D5) else if i < 183 then 0x94B49521 else 0x66DF1622
      )
    ) else (
      if i < 188 then (
        if i < 186 then (if i < 185 then 0x38CC2A06 else 0xCAA7A905) else if i < 187 then 0xD9F75AF1 else 0x2B9CD9F2
      ) else (
        if i < 190 then (if i < 189 then 0xFF56BD19 else 0x0D3D3E1A) else if i < 191 then 0x1E6DCDEE else 0xEC064EED
      )
    )
  }

  function TabC(i: bv32): bv32 {
    if i < 200 then (
      if i < 196 then (
        if i < 194 then (if i < 193 then 0xC38D26C4 else 0x31E6A5C7) else if i < 195 then 0x22B65633 else 0xD0DDD530
      ) else (
        if i < 198 then (if i < 197 then 0x0417B1DB else 0xF67C32D8) else if i < 199 then 0xE52CC12C else 0x1747422F
      )
    ) else (
      if i < 204 then (
        if i < 202 then (if i < 201 then 0x49547E0B else 0xBB3FFD08) else if i < 203 then 0xA86F0EFC else 0x5A048DFF
      ) else (
        if i < 206 then (if i < 205 then 0x8ECEE914 else 0x7CA56A17) else if i < 207 then 0x6FF599E3 else 0x9D9E1AE0
      )
    )
  }

  function TabD(i: bv32): bv32 {
    if i < 216 then (
      if i < 212 then (
        if i < 210 then (if i < 209 then 0xD3D3E1AB else 0x21B862A8) else if i < 211 then 0x32E8915C else 0xC083125F
      ) else (
        if i < 214 then (if i < 213 then 0x144976B4 else 0xE622F5B7) else if i < 215 then 0xF5720643 else 0x07198540
      )
    ) else (
      if i < 220 then (
        if i < 218 then (if i < 217 then 0x590AB964 else 0xAB613A67) else if i < 219 then 0xB831C993 else 0x4A5A4A90
      ) else (
        if i < 222 then (if i < 221 then 0x9E902E7B else 0x6CFBAD78) else if i < 223 then 0x7FAB5E8C else 0x8DC0DD8F
      )
    )
  }

  function TabE(i: bv32): bv32 {
    if i < 232 then (
      if i < 228 then (
        if i < 226 then (if i < 225 then 0xE330A81A else 0x115B2B19) else if i < 227 then 0x020BD8ED else 0xF0605BEE
      ) else (
        if i < 230 then (if i < 229 then 0x24AA3F05 else 0xD6C1BC06) else if i < 231 then 0xC5914FF2 else 0x37FACCF1
      )
    ) else (
      if i < 236 then (
        if i < 234 then (if i < 233 then 0x69E9F0D5 else 0x9B8273D6) else if i < 235 then 0x88D28022 else 0x7AB90321
      ) else (
        if i < 238 then (if i < 237 then 0xAE7367CA else 0x5C18E4C9) else if i < 239 then 0x4F48173D else 0xBD23943E
      )
    )
  }

  function TabF(i: bv32): bv32 {
    if i < 248 then (
      if i < 244 then (
        if i < 242 then (if i < 241 then 0xF36E6F75 else 0x0105EC76) else if i < 243 then 0x12551F82 else 0xE03E9C81
      ) else (
        if i < 246 then (if i < 245 then 0x34F4F86A else 0xC69F7B69) else if i < 247 then 0xD5CF889D else 0x27A40B9E
      )
    ) else (
      if i < 252 then (
        if i < 250 then (if i < 249 then 0x79B737BA else 0x8BDCB4B9) else if i < 251 then 0x988C474D else 0x6AE7C44E
      ) else (
        if i < 254 then (if i < 253 then 0xBE2DA0A5 else 0x4C4623A6) else if i < 255 then 0x5F16D052 else 0xAD7D5351
      )
    )
  }

  function Tab(i: bv32): bv32 {
    if i < 128 then (
      if i < 64 then (
        if i < 32 then (
          if i < 16 then Tab0(i) else Tab1(i)
        ) else (
          if i < 48 then Tab2(i) else Tab3(i)
        )
      ) else (
        if i < 96 then (
          if i < 80 then Tab4(i) else Tab5(i)
        ) else (
          if i < 112 then Tab6(i) else Tab7(i)
        )
      )
    ) else (
      if i < 192 then (
        if i < 160 then (
          if i < 144 then Tab8(i) else Tab9(i)
        ) else (
          if i < 176 then TabA(i) else TabB(i)
        )
      ) else (
        if i < 224 then (
          if i < 208 then TabC(i) else TabD(i)
        ) else (
          if i < 240 then TabE(i) else TabF(i)
        )
      )
    )
  }

  /** One bit of the division by the reflected Castagnoli polynomial. */
  function Step(c: bv32): bv32 {
    if c & 1 == 1 then (c >> 1) ^ 0x82F63B78 else c >> 1
  }

  function Step2(c: bv32): bv32 {
    Step(Step(c))
  }

  function Step8(c: bv32): bv32 {
    Step2(Step2(Step2(Step2(c))))
  }

  lemma Row0(i: bv32)
    requires 0 <= i < 16
    ensures Tab0(i) == Step8(i)
  {
    if i == 0 {} else if i == 1 {} else if i == 2 {} else if i == 3 {}
    else if i == 4 {} else if i == 5 {} else if i == 6 {} else if i == 7 {}
    else if i == 8 {} else if i == 9 {} else if i == 10 {} else if i == 11 {}
    else if i == 12 {} else if i == 13 {} else if i == 14 {} else if i == 15 {}
  }

  lemma Row1(i: bv32)
    requires 16 <= i < 32
    ensures Tab1(i) == Step8(i)
  {
    if i == 16 {} else if i == 17 {} else if i == 18 {} else if i == 19 {}
    else if i == 20 {} else if i == 21 {} else if i == 22 {} else if i == 23 {}
    else if i == 24 {} else if i == 25 {} else if i == 26 {} else if i == 27 {}
    else if i == 28 {} else if i == 29 {} else if i == 30 {} else if i == 31 {}
  }

  lemma Row2(i: bv32)
    requires 32 <= i < 48
    ensures Tab2(i) == Step8(i)
  {
    if i == 32 {} else if i == 33 {} else if i == 34 {} else if i == 35 {}
    else if i == 36 {} else if i == 37 {} else if i == 38 {} else if i == 39 {}
    else if i == 40 {} else if i == 41 {} else if i == 42 {} else if i == 43 {}
    else if i == 44 {} else if i == 45 {} else if i == 46 {} else if i == 47 {}
  }

  lemma Row3(i: bv32)
    requires 48 <= i < 64
    ensures Tab3(i) == Step8(i)
  {
    if i == 48 {} else if i == 49 {} else if i == 50 {} else if i == 51 {}
    else if i == 52 {} else if i == 53 {} else if i == 54 {} else if i == 55 {}
    else if i == 56 {} else if i == 57 {} else if i == 58 {} else if i == 59 {}
    else if i == 60 {} else if i == 61 {} else if i == 62 {} else if i == 63 {}
  }

  lemma Row4(i: bv32)
    requires 64 <= i < 80
    ensures Tab4(i) == Step8(i)
  {
    if i == 64 {} else if i == 65 {} else if i == 66 {} else if i == 67 {}
    else if i == 68 {} else if i == 69 {} else if i == 70 {} else if i == 71 {}
    else if i == 72 {} else if i == 73 {} else if i == 74 {} else if i == 75 {}
    else if i == 76 {} else if i == 77 {} else if i == 78 {} else if i == 79 {}
  }

  lemma Row5(i: bv32)
    requires 80 <= i < 96
    ensures Tab5(i) == Step8(i)
  {
    if i == 80 {} else if i == 81 {} else if i == 82 {} else if i == 83 {}
    else if i == 84 {} else if i == 85 {} else if i == 86 {} else if i == 87 {}
    else if i == 88 {} else if i == 89 {} else if i == 90 {} else if i == 91 {}
    else if i == 92 {} else if i == 93 {} else if i == 94 {} else if i == 95 {}
  }

  lemma Row6(i: bv32)
    requires 96 <= i < 112
    ensures Tab6(i) == Step8(i)
  {
    if i == 96 {} else if i == 97 {} else if i == 98 {} else if i == 99 {}
    else if i == 100 {} else if i == 101 {} else if i == 102 {} else if i == 103 {}
    else if i == 104 {} else if i == 105 {} else if i == 106 {} else if i == 107 {}
    else if i == 108 {} else if i == 109 {} else if i == 110 {} else if i == 111 {}
  }

  lemma Row7(i: bv32)
    requires 112 <= i < 128
    ensures Tab7(i) == Step8(i)
  {
    if i == 112 {} else if i == 113 {} else if i == 114 {} else if i == 115 {}
    else if i == 116 {} else if i == 117 {} else if i == 118 {} else if i == 119 {}
    else if i == 120 {} else if i == 121 {} else if i == 122 {} else if i == 123 {}
    else if i == 124 {} else if i == 125 {} else if i == 126 {} else if i == 127 {}
  }

  lemma Row8(i: bv32)
    requires 128 <= i < 144
    ensures Tab8(i) == Step8(i)
  {
    if i == 128 {} else if i == 129 {} else if i == 130 {} else if i == 131 {}
    else if i == 132 {} else if i == 133 {} else if i == 134 {} else if i == 135 {}
    else if i == 136 {} else if i == 137 {} else if i == 138 {} else if i == 139 {}
    else if i == 140 {} else if i == 141 {} else if i == 142 {} else if i == 143 {}
  }

  lemma Row9(i: bv32)
    requires 144 <= i < 160
    ensures Tab9(i) == Step8(i)
  {
    if i == 144 {} else if i == 145 {} else if i == 146 {} else if i == 147 {}
    else if i == 148 {} else if i == 149 {} else if i == 150 {} else if i == 151 {}
    else if i == 152 {} else if i == 153 {} else if i == 154 {} else if i == 155 {}
    else if i == 156 {} else if i == 157 {} else if i == 158 {} else if i == 159 {}
  }

  lemma RowA(i: bv32)
    requires 160 <= i < 176
    ensures TabA(i) == Step8(i)
  {
    if i == 160 {} else if i == 161 {} else if i == 162 {} else if i == 163 {}
    else if i == 164 {} else if i == 165 {} else if i == 166 {} else if i == 167 {}
    else if i == 168 {} else if i == 169 {} else if i == 170 {} else if i == 171 {}
    else if i == 172 {} else if i == 173 {} else if i == 174 {} else if i == 175 {}
  }

  lemma RowB(i: bv32)
    requires 176 <= i < 192
    ensures TabB(i) == Step8(i)
  {
    if i == 176 {} else if i == 177 {} else if i == 178 {} else if i == 179 {}
    else if i == 180 {} else if i == 181 {} else if i == 182 {} else if i == 183 {}
    else if i == 184 {} else if i == 185 {} else if i == 186 {} else if i == 187 {}
    else if i == 188 {} else if i == 189 {} else if i == 190 {} else if i == 191 {}
  }

  lemma RowC(i: bv32)
    requires 192 <= i < 208
    ensures TabC(i) == Step8(i)
  {
    if i == 192 {} else if i == 193 {} else if i == 194 {} else if i == 195 {}
    else if i == 196 {} else if i == 197 {} else if i == 198 {} else if i == 199 {}
    else if i == 200 {} else if i == 201 {} else if i == 202 {} else if i == 203 {}
    else if i == 204 {} else if i == 205 {} else if i == 206 {} else if i == 207 {}
  }

  lemma RowD(i: bv32)
    requires 208 <= i < 224
    ensures TabD(i) == Step8(i)
  {
    if i == 208 {} else if i == 209 {} else if i == 210 {} else if i == 211 {}
    else if i == 212 {} else if i == 213 {} else if i == 214 {} else if i == 215 {}
    else if i == 216 {} else if i == 217 {} else if i == 218 {} else if i == 219 {}
    else if i == 220 {} else if i == 221 {} else if i == 222 {} else if i == 223 {}
  }

  lemma RowE(i: bv32)
    requires 224 <= i < 240
    ensures TabE(i) == Step8(i)
  {
    if i == 224 {} else if i == 225 {} else if i == 226 {} else if i == 227 {}
    else if i == 228 {} else if i == 229 {} else if i == 230 {} else if i == 231 {}
    else if i == 232 {} else if i == 233 {} else if i == 234 {} else if i == 235 {}
    else if i == 236 {} else if i == 237 {} else if i == 238 {} else if i == 239 {}
  }

  lemma RowF(i: bv32)
    requires 240 <= i <= 255
    ensures TabF(i) == Step8(i)
  {
    if i == 240 {} else if i == 241 {} else if i == 242 {} else if i == 243 {}
    else if i == 244 {} else if i == 245 {} else if i == 246 {} else if i == 247 {}
    else if i == 248 {} else if i == 249 {} else if i == 250 {} else if i == 251 {}
    else if i == 252 {} else if i == 253 {} else if i == 254 {} else if i == 255 {}
  }

  /** Every entry is the remainder of its index: eight division steps (section 12.1 of RFC 3720
      names the polynomial). */
  lemma TabIsDivision(i: bv32)
    requires i <= 0xFF
    ensures Tab(i) == Step8(i)
  {
    hide Step8, Tab0, Tab1, Tab2, Tab3, Tab4, Tab5, Tab6, Tab7, Tab8, Tab9, TabA, TabB, TabC, TabD, TabE, TabF;
    if i < 128 {
      if i < 64 {
        if i < 32 {
          if i < 16 {
            Row0(i);
          } else {
            Row1(i);
          }
        } else {
          if i < 48 {
            Row2(i);
          } else {
            Row3(i);
          }
        }
      } else {
        if i < 96 {
          if i < 80 {
            Row4(i);
          } else {
            Row5(i);
          }
        } else {
          if i < 112 {
            Row6(i);
          } else {
            Row7(i);
          }
        }
      }
    } else {
      if i < 192 {
        if i < 160 {
          if i < 144 {
            Row8(i);
          } else {
            Row9(i);
          }
        } else {
          if i < 176 {
            RowA(i);
          } else {
            RowB(i);
          }
        }
      } else {
        if i < 224 {
          if i < 208 {
            RowC(i);
          } else {
            RowD(i);
          }
        } else {
          if i < 240 {
            RowE(i);
          } else {
            RowF(i);
          }
        }
      }
    }
  }

  function Xor(a: bv32, b: bv32): bv32 { a ^ b }

  lemma ShiftXor(a: bv32, b: bv32)
    ensures (a >> 1) ^ (b >> 1) == (a ^ b) >> 1
  {}

  lemma LowXor(a: bv32, b: bv32)
    ensures (a ^ b) & 1 == 1 <==> (a & 1 == 1) != (b & 1 == 1)
  {}

  lemma XorTwice(x: bv32, y: bv32, p: bv32)
    ensures (x ^ p) ^ y == (x ^ y) ^ p && x ^ (y ^ p) == (x ^ y) ^ p && (x ^ p) ^ (y ^ p) == x ^ y
  {}

  lemma StepIsLinear(a: bv32, b: bv32)
    ensures Xor(Step(a), Step(b)) == Step(Xor(a, b))
  {
    ShiftXor(a, b);
    LowXor(a, b);
    XorTwice(a >> 1, b >> 1, 0x82F63B78);
  }

  lemma Step2IsLinear(a: bv32, b: bv32)
    ensures Xor(Step2(a), Step2(b)) == Step2(Xor(a, b))
  {
    hide Step, Xor;
    StepIsLinear(a, b);
    StepIsLinear(Step(a), Step(b));
  }

  lemma Step8IsLinear(a: bv32, b: bv32)
    ensures Xor(Step8(a), Step8(b)) == Step8(Xor(a, b))
  {
    hide Step2, Xor;
    var a2, b2 := Step2(a), Step2(b);
    var a4, b4 := Step2(a2), Step2(b2);
    Step2IsLinear(a, b);
    Step2IsLinear(a2, b2);
    Step2IsLinear(a4, b4);
    Step2IsLinear(Step2(a4), Step2(b4));
  }

  lemma SameTop(a: bv32, b: bv32)
    requires a >> 24 == b >> 24
    ensures Xor(a, b) >> 24 == 0
  {}

  lemma NoTopIsZero(k: bv32)
    requires k <= 0xFF && Step8(k) >> 24 == 0
    ensures k == 0
  {}

  lemma XorZero(i: bv32, j: bv32)
    ensures Xor(i, j) == 0 ==> i == j
    ensures i <= 0xFF && j <= 0xFF ==> Xor(i, j) <= 0xFF
  {}

  /** The entries' top bytes are all different. */
  lemma TopByteInjective(i: bv32, j: bv32)
    requires i <= 0xFF && j <= 0xFF && Tab(i) >> 24 == Tab(j) >> 24
    ensures i == j
  {
    hide Tab, Step8, Xor;
    TabIsDivision(i);
    TabIsDivision(j);
    Step8IsLinear(i, j);
    SameTop(Step8(i), Step8(j));
    XorZero(i, j);
    NoTopIsZero(Xor(i, j));
  }
}
